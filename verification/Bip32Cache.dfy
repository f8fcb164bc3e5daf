/**
 hdnode_private_ckd_cached: derivation along a path, keeping the parents of the last ten
 paths.  The cache is transparent: every call returns what the plain derivation returns.
 */
module Bip32Cache {
  import opened Words
  import opened Wrappers
  import opened Keys
  import opened Bip32Spec
  import opened Bip32

  const SIZE := 10
  const MAX_DEPTH := 8

  datatype Entry = Unset | Entry(path: seq<u32>, node: Node)

  /** Status, node and, when asked for, the parent's fingerprint. */
  datatype Result = Result(ok: bool, node: Node, fingerprint: Option<u32>)

  /** Without a cache: derive the parent, take its fingerprint, derive the last child. */
  ghost function Plain(e: Env, v: Node, path: seq<u32>, asked: bool): Result
    requires WellFormed(v) && PathEnds(e, v, path)
  {
    if path == [] then Result(true, v, None)
    else
      StepsCut(e, v, path, |path| - 1);
      var o := Steps(e, v, path[..|path| - 1]);
      if o.ok then Last(e, o.node, path[|path| - 1], asked) else Result(false, o.node, None)
  }

  /** The fingerprint and the last derivation. */
  ghost function Last(e: Env, v: Node, i: u32, asked: bool): Result
    requires WellFormed(v) && PathEnds(e, v, [i])
  {
    var w := if asked then Filled(e, v) else v;
    var f := if asked then Some(Fingerprint(e, v)) else None;
    match PrivateChild(e, v, i)
    case None => Result(false, w, f)
    case Some(u) => Result(true, u, f)
  }

  /** A filled-in public key changes neither the derivation nor whether it ends. */
  lemma FilledSame(e: Env, v: Node, i: u32)
    requires WellFormed(v)
    ensures WellFormed(Filled(e, v)) && ChildData(e, Filled(e, v), i) == ChildData(e, v, i)
    ensures PrivateEnds(e, Filled(e, v), i) <==> PrivateEnds(e, v, i)
    ensures PrivateEnds(e, v, i) ==> PrivateChild(e, Filled(e, v), i) == PrivateChild(e, v, i)
  {}

  /**
   What plain means: the same status and, on success, the same node as deriving step by step;
   the fingerprint, if it is asked for, is that of the last but one node.
   */
  lemma PlainIsSteps(e: Env, v: Node, path: seq<u32>, asked: bool)
    requires WellFormed(v) && PathEnds(e, v, path)
    ensures var r, o := Plain(e, v, path, asked), Steps(e, v, path);
            r.ok == o.ok && (o.ok ==> r.node == o.node)
    ensures path != [] ==> PathEnds(e, v, path[..|path| - 1])
    ensures path != [] && Steps(e, v, path[..|path| - 1]).ok ==>
              Plain(e, v, path, asked).fingerprint == if asked then Some(Fingerprint(e, Steps(e, v, path[..|path| - 1]).node)) else None
  {
    if path != [] {
      var k := |path| - 1;
      StepsCut(e, v, path, k);
      assert path[k..] == [path[k]];
      var o := Steps(e, v, path[..k]);
      if o.ok && PrivateChild(e, o.node, path[k]).Some? {
        assert Steps(e, o.node, [path[k]]) == Steps(e, PrivateChild(e, o.node, path[k]).value, [path[k]][1..]);
      }
    }
  }

  /** A set entry holds the node that its path leads to from the root. */
  ghost predicate Sound(e: Env, root: Node, entry: Entry) {
    entry.Entry? ==>
      && 0 < |entry.path| <= MAX_DEPTH && WellFormed(root) && PathEnds(e, root, entry.path)
      && Steps(e, root, entry.path) == Outcome(true, entry.node)
  }

  class Cache {
    var rootSet: bool
    var root: Node
    var index: nat
    var entries: array<Entry>

    ghost predicate Valid(e: Env)
      reads this, entries
    {
      && entries.Length == SIZE && index < SIZE
      && (forall j :: 0 <= j < SIZE ==> Sound(e, root, entries[j]))
      && (!rootSet ==> forall j :: 0 <= j < SIZE ==> entries[j].Unset?)
    }

    constructor (any: Node)
      ensures forall e :: Valid(e)
      ensures fresh(entries)
    {
      rootSet, root, index := false, any, 0;
      entries := new Entry[SIZE](_ => Unset);
    }

    /** A new root empties the cache. */
    method SetRoot(e: Env, v: Node)
      requires entries.Length == SIZE
      modifies this, entries
      ensures Valid(e) && rootSet && root == v && entries == old(entries)
    {
      index := 0;
      for j := 0 to SIZE
        invariant entries == old(entries) && index == 0
        invariant forall l :: 0 <= l < j ==> entries[l].Unset?
      {
        entries[j] := Unset;
      }
      root := v;
      rootSet := true;
    }

    /** The node of the first entry for the path. */
    method Find(path: seq<u32>, curve: CurveInfo) returns (node: Option<Node>)
      requires entries.Length == SIZE
      ensures node.Some? ==> exists j :: 0 <= j < SIZE && entries[j] == Entry(path, node.value)
    {
      for j := 0 to SIZE {
        if entries[j].Entry? && entries[j].path == path && entries[j].node.curve == curve {
          return Some(entries[j].node);
        }
      }
      return None;
    }

    /** The next entry in turn is overwritten. */
    method Save(e: Env, path: seq<u32>, node: Node)
      requires Valid(e) && rootSet && Sound(e, root, Entry(path, node))
      modifies this`index, entries
      ensures Valid(e)
    {
      entries[index] := Entry(path, node);
      index := (index + 1) % SIZE;
    }

    /** Derives inout along the path; stops at the first failure. */
    method DeriveParent(e: Env, inout: HDNode, path: seq<u32>) returns (ok: bool)
      requires WellFormed(inout.View()) && PathEnds(e, inout.View(), path)
      modifies inout
      ensures Outcome(ok, inout.View()) == old(Steps(e, inout.View(), path))
    {
      ghost var v := inout.View();
      var k := 0;
      while k < |path|
        invariant 0 <= k <= |path|
        invariant WellFormed(inout.View()) && PathEnds(e, inout.View(), path[k..])
        invariant Steps(e, v, path) == Steps(e, inout.View(), path[k..])
      {
        assert path[k..][1..] == path[k + 1..];
        ghost var u := inout.View();
        if PrivateChild(e, u, path[k]).Some? { PrivateChildKey(e, u, path[k]); }
        var done := PrivateCkd(e, inout, path[k]);
        if !done {
          return false;
        }
        k := k + 1;
      }
      return true;
    }

    /** The parent of the path, from the cache or derived and then kept. */
    method Parent(e: Env, inout: HDNode, path: seq<u32>) returns (ok: bool)
      requires Valid(e) && WellFormed(inout.View()) && PathEnds(e, inout.View(), path) && 0 < |path| <= MAX_DEPTH
      modifies this, entries, inout
      ensures Valid(e) && entries == old(entries)
      ensures Outcome(ok, inout.View()) == old(Steps(e, inout.View(), path))
    {
      var v := inout.View();
      if !rootSet || root != v {
        SetRoot(e, v);
      } else {
        var hit := Find(path, inout.curve);
        if hit.Some? {
          ghost var j :| 0 <= j < SIZE && entries[j] == Entry(path, hit.value);
          assert Sound(e, root, entries[j]);
          inout.Assign(hit.value);
          return true;
        }
      }
      ok := DeriveParent(e, inout, path);
      if ok {
        Save(e, path, inout.View());
      }
    }

    /**
     hdnode_private_ckd_cached for paths of at most nine indices; longer ones overflow an
     entry's path.  Whatever was derived before, the result is the plain derivation's.
     */
    method PrivateCkdCached(e: Env, inout: HDNode, path: seq<u32>, asked: bool) returns (ok: bool, fingerprint: Option<u32>)
      requires Valid(e) && WellFormed(inout.View()) && PathEnds(e, inout.View(), path) && |path| <= MAX_DEPTH + 1
      modifies this, entries, inout
      ensures Valid(e) && entries == old(entries)
      ensures Result(ok, inout.View(), fingerprint) == old(Plain(e, inout.View(), path, asked))
    {
      if |path| == 0 {
        return true, None;
      }
      var last := |path| - 1;
      ghost var v := inout.View();
      StepsCut(e, v, path, last);
      assert path[last..] == [path[last]];
      if |path| > 1 {
        var done := Parent(e, inout, path[..last]);
        if !done {
          return false, None;
        }
      }
      ok, fingerprint := LastChild(e, inout, path[last], asked);
    }

    method LastChild(e: Env, inout: HDNode, i: u32, asked: bool) returns (ok: bool, fingerprint: Option<u32>)
      requires WellFormed(inout.View()) && PathEnds(e, inout.View(), [i])
      modifies inout
      ensures Result(ok, inout.View(), fingerprint) == old(Last(e, inout.View(), i, asked))
    {
      fingerprint := None;
      if asked {
        FilledSame(e, inout.View(), i);
        var f := FingerprintOf(e, inout);
        fingerprint := Some(f);
      }
      ok := PrivateCkd(e, inout, i);
    }
  }
}
