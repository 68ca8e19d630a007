/** The registry of peer node URLs (src/modules/nodes/nodes.service.ts). The
    JavaScript `Set` it keeps is a list without duplicates in insertion order,
    which is the order `Array.from` lists it in. */
module Nodes {
  import opened Results
  import opened Text

  predicate NoDuplicates(s: seq<string>)
  {
    forall i, j :: 0 <= i < j < |s| ==> s[i] != s[j]
  }

  /** `set.add(u)`: appended when new, otherwise nothing changes. */
  function Add(s: seq<string>, u: string): (r: seq<string>)
    ensures u in s ==> r == s
    ensures u !in s ==> r == s + [u]
    ensures NoDuplicates(s) ==> NoDuplicates(r)
    ensures forall x :: x in r <==> x in s || x == u
  {
    if u in s then s else s + [u]
  }

  /** `set.delete(u)`: removes `u` and keeps the order of the rest. */
  function Remove(s: seq<string>, u: string): (r: seq<string>)
    ensures forall x :: x in r <==> x in s && x != u
    ensures NoDuplicates(s) ==> NoDuplicates(r)
    ensures |r| <= |s|
  {
    if |s| == 0 then []
    else
      var rest := Remove(s[1..], u);
      assert NoDuplicates(s) ==> s[0] !in s[1..] && NoDuplicates(s[1..]);
      (if s[0] == u then [] else [s[0]]) + rest
  }

  /** `new Set(list)`: the list's elements in order of first occurrence. */
  function SetOf(list: seq<string>): (r: seq<string>)
    ensures NoDuplicates(r)
    ensures forall x :: x in r <==> x in list
  {
    if |list| == 0 then [] else Add(SetOf(list[..|list| - 1]), list[|list| - 1])
  }

  /** The initial set: the comma-separated bootstrap peers, or none when the
      variable is unset or empty. */
  function InitialNodes(bootstrapPeers: Option<string>): (r: seq<string>)
    ensures bootstrapPeers.None? || bootstrapPeers == Some("") ==> r == []
    ensures bootstrapPeers.Some? && bootstrapPeers.value != "" ==>
      forall x :: x in r <==> x in Split(bootstrapPeers.value, ',')
    ensures NoDuplicates(r)
  {
    if bootstrapPeers.None? || bootstrapPeers.value == "" then []
    else SetOf(Split(bootstrapPeers.value, ','))
  }

  class NodesService {
    var nodes: seq<string>

    ghost predicate Valid()
      reads this
    {
      NoDuplicates(nodes)
    }

    /** The registry starts with the bootstrap peers read from the environment. */
    constructor (bootstrapPeers: Option<string>)
      ensures Valid() && nodes == InitialNodes(bootstrapPeers)
    {
      nodes := InitialNodes(bootstrapPeers);
    }

    /** addNode: registers a new URL; a registered one is left as it is. */
    method AddNode(nodeUrl: string)
      requires Valid()
      modifies this
      ensures Valid() && nodes == Add(old(nodes), nodeUrl)
    {
      if nodeUrl in nodes {
        return;
      }
      nodes := nodes + [nodeUrl];
    }

    /** getNodes: every registered URL once, in insertion order; nothing changes. */
    method GetNodes() returns (r: seq<string>)
      requires Valid()
      ensures r == nodes && NoDuplicates(r)
    {
      r := nodes;
    }

    /** removeNode: unregisters a URL; an unknown one is a no-op. */
    method RemoveNode(nodeUrl: string)
      requires Valid()
      modifies this
      ensures Valid() && nodes == Remove(old(nodes), nodeUrl)
    {
      if nodeUrl !in nodes {
        RemoveAbsent(nodes, nodeUrl);
        return;
      }
      nodes := Remove(nodes, nodeUrl);
    }
  }

  /** Removing a URL that is not registered changes nothing. */
  lemma {:induction false} RemoveAbsent(s: seq<string>, u: string)
    requires u !in s
    ensures Remove(s, u) == s
    decreases |s|
  {
    if |s| > 0 {
      RemoveAbsent(s[1..], u);
      assert s == [s[0]] + s[1..];
    }
  }

  /** Removing a registered URL takes out that one entry and keeps the rest in order. */
  lemma {:induction false} RemovePresent(s: seq<string>, u: string, k: nat)
    requires NoDuplicates(s) && k < |s| && s[k] == u
    ensures Remove(s, u) == s[..k] + s[k + 1..]
    decreases k
  {
    var tail := s[1..];
    assert NoDuplicates(tail) by {
      forall i, j | 0 <= i < j < |tail| ensures tail[i] != tail[j] { assert tail[i] == s[i + 1] && tail[j] == s[j + 1]; }
    }
    if k == 0 {
      assert u !in tail by {
        forall i | 0 <= i < |tail| ensures tail[i] != u { assert tail[i] == s[i + 1]; }
      }
      RemoveAbsent(tail, u);
    } else {
      assert s[0] != u;
      RemovePresent(tail, u, k - 1);
      assert s[..k] == [s[0]] + tail[..k - 1];
      assert s[k + 1..] == tail[k..];
    }
  }

  /** Registering a new URL and removing it again restores the registry. */
  lemma AddThenRemove(s: seq<string>, u: string)
    requires u !in s
    ensures Remove(Add(s, u), u) == s
  {
    RemoveAppend(s, [u], u);
    RemoveAbsent(s, u);
  }

  lemma {:induction false} RemoveAppend(a: seq<string>, b: seq<string>, u: string)
    ensures Remove(a + b, u) == Remove(a, u) + Remove(b, u)
    decreases |a|
  {
    if |a| > 0 {
      assert (a + b)[1..] == a[1..] + b;
      RemoveAppend(a[1..], b, u);
    } else {
      assert a + b == b;
    }
  }
}
