/**
 The partial patch of a parameter tree: which patches are accepted, and what the deep merge does.

 A tree is an object (a map from key to tree) or a leaf; any value that is not an object is a leaf.
 */
module GateMerge {
  import opened Prelude

  datatype Tree = Leaf(value: string) | Obj(entries: map<string, Tree>)

  type Path = seq<string>

  // ----- the merge -----

  /** `patch` laid over `base`: objects merge key by key, anything else in the patch wins. */
  function Merge(base: Tree, patch: Tree): Tree
    decreases patch
  {
    if base.Obj? && patch.Obj? then
      Obj(map k | k in base.entries.Keys + patch.entries.Keys ::
            if k !in patch.entries then base.entries[k]
            else if k !in base.entries then patch.entries[k]
            else Merge(base.entries[k], patch.entries[k]))
    else patch
  }

  /** The loop of `_deep_merge`: copy the base, then overwrite key by key. */
  method DeepMerge(base: Tree, patch: Tree) returns (merged: Tree)
    requires base.Obj? && patch.Obj?
    ensures merged == Merge(base, patch)
    decreases patch
  {
    var out := base.entries;
    var todo := patch.entries.Keys;
    while todo != {}
      invariant todo <= patch.entries.Keys
      invariant out.Keys == base.entries.Keys + (patch.entries.Keys - todo)
      invariant forall k :: k in out && (k in todo || k !in patch.entries) ==> k in base.entries && out[k] == base.entries[k]
      invariant forall k :: k in patch.entries && k !in todo ==> out[k] == Merge(base, patch).entries[k]
      decreases todo
    {
      var key :| key in todo;
      var value := patch.entries[key];
      if key in out && out[key].Obj? && value.Obj? {
        var sub := DeepMerge(out[key], value);
        out := out[key := sub];
      } else {
        out := out[key := value];
      }
      todo := todo - {key};
    }
    assert out == Merge(base, patch).entries;
    merged := Obj(out);
  }

  // ----- which patches are accepted -----

  /** What is wrong at a path: a key the reference does not have, or a value where it has an object. */
  datatype Complaint = UnknownKey(path: Path) | MustBeObject(path: Path)

  function Under(key: string, c: Complaint): Complaint {
    match c
    case UnknownKey(p) => UnknownKey([key] + p)
    case MustBeObject(p) => MustBeObject([key] + p)
  }

  function Complaints(given: Tree, reference: Tree): set<Complaint>
    decreases given
  {
    if given.Leaf? || reference.Leaf? then {}
    else set k, c | k in given.entries && c in ComplaintsAt(given, reference, k) :: c
  }

  /** The complaints one key gives rise to. */
  function ComplaintsAt(given: Tree, reference: Tree, k: string): set<Complaint>
    requires given.Obj? && reference.Obj? && k in given.entries
    decreases given, 0
  {
    var value := given.entries[k];
    if k !in reference.entries then {UnknownKey([k])}
    else if reference.entries[k].Leaf? then {}
    else if value.Leaf? then {MustBeObject([k])}
    else set c | c in Complaints(value, reference.entries[k]) :: Under(k, c)
  }

  function AsSet(cs: seq<Complaint>): set<Complaint> {
    set c | c in cs
  }

  /** The loop of `_unknown_gate_paths`: it collects the complaints of every key. */
  method UnknownGatePaths(given: Tree, reference: Tree) returns (out: seq<Complaint>)
    ensures AsSet(out) == Complaints(given, reference)
    decreases given
  {
    out := [];
    if given.Leaf? || reference.Leaf? {
      return;
    }
    var todo := given.entries.Keys;
    while todo != {}
      invariant todo <= given.entries.Keys
      invariant forall k :: k in given.entries && k !in todo ==> ComplaintsAt(given, reference, k) <= AsSet(out)
      invariant AsSet(out) <= Complaints(given, reference)
      decreases todo
    {
      var key :| key in todo;
      var more: seq<Complaint> := [];
      if key !in reference.entries {
        more := [UnknownKey([key])];
      } else if reference.entries[key].Obj? {
        if given.entries[key].Leaf? {
          more := [MustBeObject([key])];
        } else {
          var sub := UnknownGatePaths(given.entries[key], reference.entries[key]);
          more := seq(|sub|, i requires 0 <= i < |sub| => Under(key, sub[i]));
          PrefixedComplaints(key, sub, more);
        }
      }
      assert AsSet(more) == ComplaintsAt(given, reference, key);
      assert AsSet(out + more) == AsSet(out) + AsSet(more);
      KeyComplaintsCount(given, reference, key);
      out := out + more;
      todo := todo - {key};
    }
    assert Complaints(given, reference) <= AsSet(out);
  }

  lemma KeyComplaintsCount(given: Tree, reference: Tree, k: string)
    requires given.Obj? && reference.Obj? && k in given.entries
    ensures ComplaintsAt(given, reference, k) <= Complaints(given, reference)
  {
  }

  lemma PrefixedComplaints(key: string, sub: seq<Complaint>, more: seq<Complaint>)
    requires |more| == |sub| && forall i :: 0 <= i < |sub| ==> more[i] == Under(key, sub[i])
    ensures AsSet(more) == set c | c in AsSet(sub) :: Under(key, c)
  {
    forall c | c in sub
      ensures Under(key, c) in more
    {
      var i :| 0 <= i < |sub| && sub[i] == c;
      assert more[i] == Under(key, c);
    }
    forall d | d in more
      ensures exists c :: c in AsSet(sub) && Under(key, c) == d
    {
      var i :| 0 <= i < |more| && more[i] == d;
      assert sub[i] in AsSet(sub) && Under(key, sub[i]) == d;
    }
  }

  /** A key the reference has, with an object where the reference has one. */
  ghost predicate KeyOk(given: Tree, reference: Tree, k: string)
    requires given.Obj? && reference.Obj? && k in given.entries
  {
    && k in reference.entries
    && (reference.entries[k].Obj? ==> given.entries[k].Obj? && Complaints(given.entries[k], reference.entries[k]) == {})
  }

  lemma NoComplaintAt(given: Tree, reference: Tree, k: string)
    requires given.Obj? && reference.Obj? && k in given.entries
    ensures ComplaintsAt(given, reference, k) == {} <==> KeyOk(given, reference, k)
  {
    if k in reference.entries && reference.entries[k].Obj? && given.entries[k].Obj? {
      if c :| c in Complaints(given.entries[k], reference.entries[k]) {
        assert Under(k, c) in ComplaintsAt(given, reference, k);
      }
    }
  }

  /** A patch is accepted when every key of it is. */
  lemma AcceptedByKey(given: Tree, reference: Tree)
    requires given.Obj? && reference.Obj?
    ensures Complaints(given, reference) == {} <==> forall k :: k in given.entries ==> KeyOk(given, reference, k)
  {
    forall k | k in given.entries
      ensures ComplaintsAt(given, reference, k) == {} <==> KeyOk(given, reference, k)
      ensures ComplaintsAt(given, reference, k) <= Complaints(given, reference)
    {
      NoComplaintAt(given, reference, k);
      KeyComplaintsCount(given, reference, k);
    }
  }

  // ----- shape -----

  /** Wherever the reference is an object, so is the tree, with the same keys; at a leaf of the reference
      anything goes. */
  ghost predicate HasShape(t: Tree, reference: Tree)
    decreases reference
  {
    reference.Obj? ==>
      && t.Obj? && t.entries.Keys == reference.entries.Keys
      && forall k :: k in reference.entries ==> HasShape(t.entries[k], reference.entries[k])
  }

  /** A patch of a well-shaped tree gives a well-shaped tree exactly when nothing is complained of. */
  lemma {:induction false} ShapeKeptIffAccepted(base: Tree, patch: Tree, reference: Tree)
    requires HasShape(base, reference) && reference.Obj? && patch.Obj?
    ensures HasShape(Merge(base, patch), reference) <==> Complaints(patch, reference) == {}
    decreases reference
  {
    AcceptedByKey(patch, reference);
    var m := Merge(base, patch);
    forall k | k in reference.entries && k in patch.entries && reference.entries[k].Obj? && patch.entries[k].Obj?
      ensures HasShape(m.entries[k], reference.entries[k]) <==> Complaints(patch.entries[k], reference.entries[k]) == {}
    {
      ShapeKeptIffAccepted(base.entries[k], patch.entries[k], reference.entries[k]);
    }
    assert forall k :: k in patch.entries ==> k in m.entries;
  }

  /** Leaves too: an object exactly where the reference has one. */
  ghost predicate SameShape(t: Tree, reference: Tree)
    decreases reference
  {
    && (t.Obj? <==> reference.Obj?)
    && (reference.Obj? ==>
          && t.entries.Keys == reference.entries.Keys
          && forall k :: k in reference.entries ==> SameShape(t.entries[k], reference.entries[k]))
  }

  /** The patch puts an object where the reference has a leaf, which no complaint reports. */
  ghost predicate ObjectAtLeaf(patch: Tree, reference: Tree)
    decreases reference
  {
    && patch.Obj? && reference.Obj?
    && exists k ::
         && k in patch.entries && k in reference.entries && patch.entries[k].Obj?
         && (reference.entries[k].Leaf? || ObjectAtLeaf(patch.entries[k], reference.entries[k]))
  }

  /** The full shape is kept exactly when there is no complaint and no such object. */
  lemma {:induction false} FullShapeKeptIff(base: Tree, patch: Tree, reference: Tree)
    requires SameShape(base, reference) && reference.Obj? && patch.Obj?
    ensures SameShape(Merge(base, patch), reference) <==> Complaints(patch, reference) == {} && !ObjectAtLeaf(patch, reference)
    decreases reference
  {
    AcceptedByKey(patch, reference);
    var m := Merge(base, patch);
    assert forall k :: k in patch.entries ==> k in m.entries;
    forall k | k in reference.entries && k in patch.entries && reference.entries[k].Obj? && patch.entries[k].Obj?
      ensures SameShape(m.entries[k], reference.entries[k]) <==>
                Complaints(patch.entries[k], reference.entries[k]) == {} && !ObjectAtLeaf(patch.entries[k], reference.entries[k])
    {
      FullShapeKeptIff(base.entries[k], patch.entries[k], reference.entries[k]);
    }
    forall k | k in reference.entries && k in patch.entries && (reference.entries[k].Leaf? || patch.entries[k].Leaf?)
      ensures m.entries[k] == patch.entries[k]
    {
      assert SameShape(base.entries[k], reference.entries[k]);
      assert m.entries[k] == Merge(base.entries[k], patch.entries[k]);
    }
    if SameShape(m, reference) {
      assert forall k :: k in patch.entries ==> k in reference.entries;
    }
  }

  /** An object sent for a leaf: nothing is complained of, and the leaf is gone. */
  lemma ObjectReplacesLeaf(k: string, v: string)
    ensures var reference, patch := Obj(map[k := Leaf(v)]), Obj(map[k := Obj(map[])]);
            Complaints(patch, reference) == {} && ObjectAtLeaf(patch, reference) && !SameShape(Merge(reference, patch), reference)
  {
    var reference, patch := Obj(map[k := Leaf(v)]), Obj(map[k := Obj(map[])]);
    AcceptedByKey(patch, reference);
    assert k in patch.entries && k in reference.entries;
    FullShapeKeptIff(reference, patch, reference);
  }

  // ----- paths -----

  function Lookup(t: Tree, path: Path): Option<Tree>
    decreases path
  {
    if path == [] then Some(t)
    else if t.Leaf? || path[0] !in t.entries then None
    else Lookup(t.entries[path[0]], path[1..])
  }

  /** The patch says something at the path or above it. */
  predicate NamedBy(patch: Tree, path: Path)
    decreases path
  {
    if path == [] || patch.Leaf? then true
    else path[0] in patch.entries && NamedBy(patch.entries[path[0]], path[1..])
  }

  lemma NamedStep(patch: Tree, k: string, rest: Path)
    ensures NamedBy(patch, [k] + rest) <==> patch.Leaf? || (k in patch.entries && NamedBy(patch.entries[k], rest))
  {
    assert ([k] + rest)[1..] == rest;
  }

  lemma {:induction false} UnnamedIsAbsent(patch: Tree, path: Path)
    requires !NamedBy(patch, path)
    ensures Lookup(patch, path) == None
    decreases path
  {
    if path[0] in patch.entries {
      UnnamedIsAbsent(patch.entries[path[0]], path[1..]);
    }
  }

  /** A path the patch does not name keeps its value. */
  lemma {:induction false} UnnamedKept(base: Tree, patch: Tree, path: Path)
    requires base.Obj? && !NamedBy(patch, path)
    ensures Lookup(Merge(base, patch), path) == Lookup(base, path)
    decreases path
  {
    var k, rest := path[0], path[1..];
    if k in patch.entries {
      UnnamedIsAbsent(patch.entries[k], rest);
      if k in base.entries && base.entries[k].Obj? {
        UnnamedKept(base.entries[k], patch.entries[k], rest);
      }
    }
  }

  /** A leaf the patch names is written. */
  lemma {:induction false} NamedLeafWritten(base: Tree, patch: Tree, path: Path, v: string)
    requires Lookup(patch, path) == Some(Leaf(v))
    ensures Lookup(Merge(base, patch), path) == Some(Leaf(v))
    decreases path
  {
    if path != [] && base.Obj? && path[0] in base.entries {
      NamedLeafWritten(base.entries[path[0]], patch.entries[path[0]], path[1..], v);
    }
  }

  // ----- the paths complained of -----

  /** The patch has something at the path where the reference has an object without that key. */
  ghost predicate OutsideReference(given: Tree, reference: Tree, path: Path) {
    && path != [] && Lookup(given, path).Some? && Lookup(reference, path).None?
    && Lookup(reference, path[..|path| - 1]).Some? && Lookup(reference, path[..|path| - 1]).value.Obj?
  }

  /** The patch has a plain value where the reference has an object. */
  ghost predicate ValueForObject(given: Tree, reference: Tree, path: Path) {
    && path != [] && Lookup(given, path).Some? && Lookup(given, path).value.Leaf?
    && Lookup(reference, path).Some? && Lookup(reference, path).value.Obj?
  }

  lemma StepInto(t: Tree, k: string, rest: Path)
    ensures Lookup(t, [k] + rest) == if t.Obj? && k in t.entries then Lookup(t.entries[k], rest) else None
  {
    assert ([k] + rest)[1..] == rest;
  }

  /** The complaints below one key are those of its subtree, with the key in front. */
  lemma ComplaintBelow(given: Tree, reference: Tree, k: string, c: Complaint)
    requires given.Obj? && reference.Obj? && k in given.entries && k in reference.entries
    requires given.entries[k].Obj? && reference.entries[k].Obj?
    ensures Under(k, c) in Complaints(given, reference) <==> c in Complaints(given.entries[k], reference.entries[k])
  {
    if Under(k, c) in Complaints(given, reference) {
      var key :| key in given.entries && Under(k, c) in ComplaintsAt(given, reference, key);
      KeyInFront(given, reference, key, Under(k, c));
      var d :| d in Complaints(given.entries[k], reference.entries[k]) && Under(k, d) == Under(k, c);
      assert ([k] + c.path)[1..] == ([k] + d.path)[1..];
    }
    if c in Complaints(given.entries[k], reference.entries[k]) {
      assert Under(k, c) in ComplaintsAt(given, reference, k);
      KeyComplaintsCount(given, reference, k);
    }
  }

  lemma {:induction false} KeyInFront(given: Tree, reference: Tree, k: string, c: Complaint)
    requires given.Obj? && reference.Obj? && k in given.entries && c in ComplaintsAt(given, reference, k)
    ensures c.path != [] && c.path[0] == k
  {
  }

  lemma ComplaintHasPath(given: Tree, reference: Tree, c: Complaint)
    requires c in Complaints(given, reference)
    ensures given.Obj? && reference.Obj? && c.path != [] && c.path[0] in given.entries
    ensures c in ComplaintsAt(given, reference, c.path[0])
  {
    var key :| key in given.entries && c in ComplaintsAt(given, reference, key);
    KeyInFront(given, reference, key, c);
  }

  /** The complaints are exactly the unknown paths and the values sent for objects, each at its place. */
  lemma {:induction false} ComplaintsAre(given: Tree, reference: Tree, path: Path)
    requires given.Obj? && reference.Obj?
    ensures UnknownKey(path) in Complaints(given, reference) <==> OutsideReference(given, reference, path)
    ensures MustBeObject(path) in Complaints(given, reference) <==> ValueForObject(given, reference, path)
    decreases |path|, 0
  {
    if UnknownKey(path) in Complaints(given, reference) {
      ComplaintHasPath(given, reference, UnknownKey(path));
    }
    if MustBeObject(path) in Complaints(given, reference) {
      ComplaintHasPath(given, reference, MustBeObject(path));
    }
    if path != [] && path[0] in given.entries {
      ComplaintsFrom(given, reference, path[0], path[1..]);
      assert path == [path[0]] + path[1..];
    }
  }

  lemma {:induction false} ComplaintsFrom(given: Tree, reference: Tree, k: string, rest: Path)
    requires given.Obj? && reference.Obj? && k in given.entries
    ensures UnknownKey([k] + rest) in Complaints(given, reference) <==> OutsideReference(given, reference, [k] + rest)
    ensures MustBeObject([k] + rest) in Complaints(given, reference) <==> ValueForObject(given, reference, [k] + rest)
    decreases |rest|, 1
  {
    var path := [k] + rest;
    StepInto(given, k, rest);
    StepInto(reference, k, rest);
    assert path[1..] == rest && |rest| < |path|;
    if rest != [] {
      assert path[..|path| - 1] == [k] + rest[..|rest| - 1];
      StepInto(reference, k, rest[..|rest| - 1]);
    } else {
      assert path[..|path| - 1] == [];
    }
    AtKeyOnly(given, reference, k, UnknownKey(path));
    AtKeyOnly(given, reference, k, MustBeObject(path));
    if k !in reference.entries {
      assert path == [k] <==> rest == [];
    } else if reference.entries[k].Leaf? {
      assert rest != [] ==> |path| >= 2;
    } else if given.entries[k].Leaf? {
      assert path == [k] <==> rest == [];
    } else {
      assert Under(k, UnknownKey(rest)) == UnknownKey(path) && Under(k, MustBeObject(rest)) == MustBeObject(path);
      ComplaintBelow(given, reference, k, UnknownKey(rest));
      ComplaintBelow(given, reference, k, MustBeObject(rest));
      ComplaintsAre(given.entries[k], reference.entries[k], rest);
    }
  }

  lemma AtKeyOnly(given: Tree, reference: Tree, k: string, c: Complaint)
    requires given.Obj? && reference.Obj? && k in given.entries && c.path != [] && c.path[0] == k
    ensures c in Complaints(given, reference) <==> c in ComplaintsAt(given, reference, k)
  {
    if c in Complaints(given, reference) {
      ComplaintHasPath(given, reference, c);
    }
    KeyComplaintsCount(given, reference, k);
  }

  // ----- algebra -----

  /** Applying a patch twice is applying it once. */
  lemma {:induction false} MergeIdempotent(base: Tree, patch: Tree)
    ensures Merge(Merge(base, patch), patch) == Merge(base, patch)
    decreases patch
  {
    if patch.Obj? {
      var once := Merge(base, patch);
      forall k | k in patch.entries
        ensures k in once.entries && Merge(once.entries[k], patch.entries[k]) == once.entries[k]
      {
        if base.Obj? && k in base.entries {
          MergeIdempotent(base.entries[k], patch.entries[k]);
        } else {
          MergeSelf(patch.entries[k]);
        }
      }
      assert Merge(once, patch).entries == once.entries;
    }
  }

  lemma {:induction false} MergeSelf(t: Tree)
    ensures Merge(t, t) == t
    decreases t
  {
    if t.Obj? {
      forall k | k in t.entries
        ensures Merge(t.entries[k], t.entries[k]) == t.entries[k]
      {
        MergeSelf(t.entries[k]);
      }
      assert Merge(t, t).entries == t.entries;
    }
  }

  /** The patches name no common leaf: a key they share is an object in both, disjoint in turn. */
  ghost predicate Disjoint(p: Tree, q: Tree)
    decreases p
  {
    p.Obj? && q.Obj? && forall k :: k in p.entries && k in q.entries ==> Disjoint(p.entries[k], q.entries[k])
  }

  lemma {:induction false} DisjointMergeSymmetric(p: Tree, q: Tree)
    requires Disjoint(p, q)
    ensures Merge(p, q) == Merge(q, p)
    decreases p
  {
    forall k | k in p.entries && k in q.entries
      ensures Merge(p.entries[k], q.entries[k]) == Merge(q.entries[k], p.entries[k])
    {
      DisjointMergeSymmetric(p.entries[k], q.entries[k]);
    }
    assert Merge(p, q).entries == Merge(q, p).entries;
  }

  /** Patches on disjoint leaves commute, on every base. */
  lemma {:induction false} DisjointPatchesCommute(base: Tree, p: Tree, q: Tree)
    requires Disjoint(p, q)
    ensures Merge(Merge(base, p), q) == Merge(Merge(base, q), p)
    decreases p
  {
    if base.Leaf? {
      DisjointMergeSymmetric(p, q);
    } else {
      var pq, qp := Merge(Merge(base, p), q), Merge(Merge(base, q), p);
      forall k | k in p.entries && k in q.entries
        ensures pq.entries[k] == qp.entries[k]
      {
        if k in base.entries {
          DisjointPatchesCommute(base.entries[k], p.entries[k], q.entries[k]);
        } else {
          DisjointMergeSymmetric(p.entries[k], q.entries[k]);
        }
      }
      assert pq.entries == qp.entries;
    }
  }

  // ----- the merge step of a gate patch -----

  const STRATEGY := "strategy"
  const EARNINGS := "earnings"
  const DATES := "dates"
  const DATES_PATH: Path := [STRATEGY, EARNINGS, DATES]

  datatype PatchResult = Accepted(params: Tree) | UnknownField | DatesInGates | NoPlaceForDates

  /** The reference has an object at strategy and strategy.earnings, and the dates as a leaf there. */
  ghost predicate HasDates(reference: Tree) {
    && reference.Obj? && STRATEGY in reference.entries && reference.entries[STRATEGY].Obj?
    && EARNINGS in reference.entries[STRATEGY].entries && reference.entries[STRATEGY].entries[EARNINGS].Obj?
    && DATES in reference.entries[STRATEGY].entries[EARNINGS].entries
    && reference.entries[STRATEGY].entries[EARNINGS].entries[DATES].Leaf?
  }

  /** The object at a key, an empty one when the key is missing. */
  function Child(t: Tree, key: string): Tree {
    if t.Obj? && key in t.entries then t.entries[key] else Obj(map[])
  }

  /** Write the earnings dates where the daemon reads them. */
  function WithDates(params: Tree, dates: string): Tree {
    var strategy := Child(params, STRATEGY);
    var earnings := Child(strategy, EARNINGS);
    if params.Obj? && strategy.Obj? && earnings.Obj? then
      Obj(params.entries[STRATEGY := Obj(strategy.entries[EARNINGS := Obj(earnings.entries[DATES := Leaf(dates)])])])
    else params
  }

  /** The parameters, their strategy and its earnings are objects, or missing. */
  predicate HasPlace(params: Tree) {
    params.Obj? && Child(params, STRATEGY).Obj? && Child(Child(params, STRATEGY), EARNINGS).Obj?
  }

  /** There is a place unless a plain value stands where an object belongs: a missing object is made. */
  lemma HasPlaceIff(params: Tree)
    ensures HasPlace(params) <==>
              && params.Obj?
              && ("strategy" in params.entries ==>
                    && params.entries["strategy"].Obj?
                    && ("earnings" in params.entries["strategy"].entries ==>
                          params.entries["strategy"].entries["earnings"].Obj?))
  {
  }

  lemma WithDatesWritten(params: Tree, dates: string)
    requires HasPlace(params)
    ensures Lookup(WithDates(params, dates), DATES_PATH) == Some(Leaf(dates))
    ensures DATES_PATH == ["strategy", "earnings", "dates"]
  {
    var s := WithDates(params, dates).entries[STRATEGY];
    assert Lookup(s.entries[EARNINGS], [DATES]) == Some(Leaf(dates)) by { assert [DATES][1..] == []; }
    assert DATES_PATH[1..] == [EARNINGS, DATES] && [EARNINGS, DATES][1..] == [DATES];
  }

  lemma WithDatesShape(params: Tree, dates: string, reference: Tree)
    requires HasDates(reference) && HasShape(params, reference)
    ensures HasPlace(params) && HasShape(WithDates(params, dates), reference)
  {
    var rs := reference.entries[STRATEGY];
    var re := rs.entries[EARNINGS];
    assert HasShape(params.entries[STRATEGY], rs);
    assert HasShape(params.entries[STRATEGY].entries[EARNINGS], re);
    var s := WithDates(params, dates).entries[STRATEGY];
    assert HasShape(s.entries[EARNINGS], re);
    assert HasShape(s, rs);
  }

  /** The patch that sends the dates alone. */
  function DatesPatch(dates: string): Tree {
    Obj(map[STRATEGY := Obj(map[EARNINGS := Obj(map[DATES := Leaf(dates)])])])
  }

  /** Replacing the dates is itself a merge, so every other path keeps its value. */
  lemma WithDatesIsMerge(params: Tree, dates: string)
    requires HasPlace(params)
    ensures WithDates(params, dates) == Merge(params, DatesPatch(dates))
  {
    var s := Child(params, STRATEGY);
    var e := Child(s, EARNINGS);
    var patch := DatesPatch(dates);
    var ps := patch.entries[STRATEGY];
    var pe := ps.entries[EARNINGS];
    assert Merge(e, pe).entries == e.entries[DATES := Leaf(dates)];
    assert EARNINGS !in s.entries ==> e.entries[DATES := Leaf(dates)] == pe.entries;
    assert Merge(s, ps).entries == s.entries[EARNINGS := Obj(e.entries[DATES := Leaf(dates)])];
    assert STRATEGY !in params.entries ==> s.entries[EARNINGS := Obj(e.entries[DATES := Leaf(dates)])] == ps.entries;
    assert Merge(params, patch).entries == WithDates(params, dates).entries;
  }

  lemma DatesNotNamed(gates: Tree, reference: Tree)
    requires HasDates(reference) && gates.Obj? && Complaints(gates, reference) == {}
    requires Child(Child(gates, STRATEGY), EARNINGS).Obj? ==> DATES !in Child(Child(gates, STRATEGY), EARNINGS).entries
    ensures !NamedBy(gates, DATES_PATH)
  {
    AcceptedByKey(gates, reference);
    DatesNamed(gates);
    if STRATEGY in gates.entries {
      AcceptedByKey(gates.entries[STRATEGY], reference.entries[STRATEGY]);
    }
  }

  /** When a patch names the dates. */
  lemma DatesNamed(gates: Tree)
    requires gates.Obj?
    ensures NamedBy(gates, DATES_PATH) <==>
              && STRATEGY in gates.entries
              && (gates.entries[STRATEGY].Obj? ==>
                    && EARNINGS in gates.entries[STRATEGY].entries
                    && (gates.entries[STRATEGY].entries[EARNINGS].Obj? ==>
                          DATES in gates.entries[STRATEGY].entries[EARNINGS].entries))
  {
    assert DATES_PATH == [STRATEGY] + [EARNINGS, DATES] && [EARNINGS, DATES] == [EARNINGS] + [DATES] && [DATES] == [DATES] + [];
    NamedStep(gates, STRATEGY, [EARNINGS, DATES]);
    if STRATEGY in gates.entries {
      var s := gates.entries[STRATEGY];
      NamedStep(s, EARNINGS, [DATES]);
      if s.Obj? && EARNINGS in s.entries {
        NamedStep(s.entries[EARNINGS], DATES, []);
      }
    }
  }

  /** The stored parameters with the gates patch merged in and the dates replaced, or why not. Parameters
      read from the table are validated, so they have the reference's shape and a place for the dates. */
  method PatchGateParams(stored: Tree, gates: Option<Tree>, dates: Option<string>, reference: Tree) returns (r: PatchResult)
    requires HasDates(reference) && stored.Obj?
    requires gates.Some? ==> gates.value.Obj?
    ensures r.UnknownField? <==> gates.Some? && Complaints(gates.value, reference) != {}
    ensures r.DatesInGates? <==> gates.Some? && Complaints(gates.value, reference) == {} && NamedBy(gates.value, DATES_PATH)
    ensures var merged := if gates.Some? then Merge(stored, gates.value) else stored;
            && (r.NoPlaceForDates? ==> dates.Some? && !HasPlace(merged))
            && (r.Accepted? ==> r.params == if dates.Some? then WithDates(merged, dates.value) else merged)
    ensures r.Accepted? ==>
              Lookup(r.params, DATES_PATH) == if dates.Some? then Some(Leaf(dates.value)) else Lookup(stored, DATES_PATH)
    ensures HasShape(stored, reference) ==> !r.NoPlaceForDates?
    ensures HasShape(stored, reference) && r.Accepted? ==> HasShape(r.params, reference)
  {
    var params := stored;
    if gates.Some? {
      var unknown := UnknownGatePaths(gates.value, reference);
      if unknown != [] {
        assert unknown[0] in AsSet(unknown);
        return UnknownField;
      }
      AcceptedByKey(gates.value, reference);
      var earnings := Child(Child(gates.value, STRATEGY), EARNINGS);
      if earnings.Obj? && DATES in earnings.entries {
        DatesNamed(gates.value);
        return DatesInGates;
      }
      DatesNotNamed(gates.value, reference);
      UnnamedKept(stored, gates.value, DATES_PATH);
      if HasShape(stored, reference) {
        ShapeKeptIffAccepted(stored, gates.value, reference);
      }
      params := DeepMerge(stored, gates.value);
    }
    if dates.Some? {
      if HasShape(params, reference) {
        WithDatesShape(params, dates.value, reference);
      }
      if !HasPlace(params) {
        return NoPlaceForDates;
      }
      WithDatesWritten(params, dates.value);
      params := WithDates(params, dates.value);
    }
    return Accepted(params);
  }
}
