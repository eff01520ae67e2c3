/** Which descriptors of included images end up in a vbmeta blob, and in which order. */
module Merging {
  import opened Bytes
  import opened Descriptors

  predicate HasPartition(d: Descriptor) {
    d.Hashtree? || d.Hash? || d.ChainPartition?
  }

  function PartitionName(d: Descriptor): bytes
    requires HasPartition(d)
  {
    match d
    case Hashtree(_, _, _, _, _, _, _, _, _, _, name, _, _, _) => name
    case Hash(_, _, name, _, _, _) => name
    case ChainPartition(_, name, _, _) => name
  }

  /** type(desc).__name__ + '_' */
  function ClassPrefix(d: Descriptor): bytes
    requires HasPartition(d)
  {
    if d.Hashtree? then Chars("AvbHashtreeDescriptor_")
    else if d.Hash? then Chars("AvbHashDescriptor_")
    else Chars("AvbChainPartitionDescriptor_")
  }

  function Key(d: Descriptor): bytes
    requires HasPartition(d)
  {
    ClassPrefix(d) + PartitionName(d)
  }

  predicate SameClass(d: Descriptor, e: Descriptor) {
    d.Hashtree? == e.Hashtree? && d.Hash? == e.Hash? && d.ChainPartition? == e.ChainPartition?
  }

  lemma PrefixesDiffer(d: Descriptor)
    requires HasPartition(d)
    ensures |ClassPrefix(d)| > 7
    ensures ClassPrefix(d)[3] == if d.ChainPartition? then 67 else 72
    ensures d.Hashtree? ==> ClassPrefix(d)[7] == 116
    ensures d.Hash? ==> ClassPrefix(d)[7] == 68
  {
  }

  /** The merge key tells type and partition name apart. */
  lemma KeyInjective(d: Descriptor, e: Descriptor)
    requires HasPartition(d) && HasPartition(e)
    ensures Key(d) == Key(e) <==> SameClass(d, e) && PartitionName(d) == PartitionName(e)
  {
    PrefixesDiffer(d);
    PrefixesDiffer(e);
    hide PartitionName, Chars;
    if Key(d) == Key(e) {
      assert ClassPrefix(d)[3] == Key(d)[3] == Key(e)[3] == ClassPrefix(e)[3];
      assert ClassPrefix(d)[7] == Key(d)[7] == Key(e)[7] == ClassPrefix(e)[7];
      assert SameClass(d, e);
      assert Key(d)[|ClassPrefix(d)|..] == PartitionName(d) && Key(e)[|ClassPrefix(e)|..] == PartitionName(e);
    }
  }

  // ------------------------------------------------------------- order on keys

  predicate LexLess(a: bytes, b: bytes) {
    if b == [] then false
    else if a == [] then true
    else if a[0] != b[0] then a[0] < b[0]
    else LexLess(a[1..], b[1..])
  }

  lemma {:induction false} LexTotal(a: bytes, b: bytes)
    ensures LexLess(a, b) || LexLess(b, a) || a == b
    ensures !(LexLess(a, b) && LexLess(b, a))
    ensures !LexLess(a, a)
  {
    if a != [] && b != [] {
      LexTotal(a[1..], b[1..]);
      LexTotal(a[1..], a[1..]);
      assert a == [a[0]] + a[1..] && b == [b[0]] + b[1..];
    } else if a != [] {
      LexTotal(a[1..], a[1..]);
    }
  }

  lemma {:induction false} LexTransitive(a: bytes, b: bytes, c: bytes)
    requires LexLess(a, b) && LexLess(b, c)
    ensures LexLess(a, c)
  {
    if a != [] && a[0] == b[0] == c[0] {
      LexTransitive(a[1..], b[1..], c[1..]);
    }
  }

  ghost predicate IsLeast(k: bytes, s: set<bytes>) {
    k in s && forall x :: x in s && x != k ==> LexLess(k, x)
  }

  lemma {:induction false} LeastExists(s: set<bytes>)
    requires s != {}
    ensures exists k :: IsLeast(k, s)
    decreases |s|
  {
    hide LexLess;
    var x :| x in s;
    var t := s - {x};
    if t == {} {
      assert s == {x};
      assert IsLeast(x, s);
    } else {
      LeastExists(t);
      var k :| IsLeast(k, t);
      LexTotal(k, x);
      if LexLess(k, x) {
        assert IsLeast(k, s);
      } else {
        forall y | y in s && y != x
          ensures LexLess(x, y)
        {
          if y != k { LexTransitive(x, k, y); }
        }
        assert IsLeast(x, s);
      }
    }
  }

  ghost function Least(s: set<bytes>): (k: bytes)
    requires s != {}
    ensures IsLeast(k, s)
  {
    LeastExists(s);
    var k :| IsLeast(k, s);
    k
  }

  /** sorted(dict): the keys in increasing order. */
  ghost function SortedKeys(s: set<bytes>): seq<bytes> {
    if s == {} then [] else [Least(s)] + SortedKeys(s - {Least(s)})
  }

  ghost predicate StrictlySorted(ks: seq<bytes>) {
    forall i, j :: 0 <= i < j < |ks| ==> LexLess(ks[i], ks[j])
  }

  lemma {:induction false} SortedKeysSorted(s: set<bytes>)
    ensures StrictlySorted(SortedKeys(s))
    ensures forall k :: k in SortedKeys(s) <==> k in s
    decreases s
  {
    hide LexLess;
    if s != {} {
      var k, rest := Least(s), SortedKeys(s - {Least(s)});
      SortedKeysSorted(s - {k});
      var ks := [k] + rest;
      forall i, j | 0 <= i < j < |ks|
        ensures LexLess(ks[i], ks[j])
      {
        assert ks[j] == rest[j - 1];
        assert ks[j] in s - {k};
        if i > 0 { assert ks[i] == rest[i - 1]; }
      }
    }
  }

  // ------------------------------------------------------------- merging

  /** The dictionary after seeing all descriptors: later ones replace earlier ones of equal key. */
  function MergeMap(ds: seq<Descriptor>): map<bytes, Descriptor> {
    if ds == [] then map[]
    else
      var m, d := MergeMap(ds[..|ds| - 1]), ds[|ds| - 1];
      if HasPartition(d) then m[Key(d) := d] else m
  }

  /** Descriptors without a partition name are kept in order. */
  function Others(ds: seq<Descriptor>): seq<Descriptor> {
    if ds == [] then []
    else
      var o, d := Others(ds[..|ds| - 1]), ds[|ds| - 1];
      if HasPartition(d) then o else o + [d]
  }

  ghost function Pick(ks: seq<bytes>, m: map<bytes, Descriptor>): seq<Descriptor>
    requires forall i :: 0 <= i < |ks| ==> ks[i] in m
  {
    if ks == [] then [] else [m[ks[0]]] + Pick(ks[1..], m)
  }

  /** The partition descriptors that are included, in the order of their keys. */
  ghost function Merged(ds: seq<Descriptor>): seq<Descriptor> {
    MergedOf(MergeMap(ds))
  }

  ghost function MergedOf(m: map<bytes, Descriptor>): seq<Descriptor> {
    SortedKeysSorted(m.Keys);
    Pick(SortedKeys(m.Keys), m)
  }

  /** All descriptors taken over from included images. */
  ghost function Included(ds: seq<Descriptor>): seq<Descriptor> {
    Others(ds) + Merged(ds)
  }

  lemma {:induction false} PickAt(ks: seq<bytes>, m: map<bytes, Descriptor>)
    requires forall i :: 0 <= i < |ks| ==> ks[i] in m
    ensures |Pick(ks, m)| == |ks|
    ensures forall i :: 0 <= i < |ks| ==> Pick(ks, m)[i] == m[ks[i]]
  {
    if ks != [] {
      PickAt(ks[1..], m);
      forall i | 0 <= i < |ks| ensures Pick(ks, m)[i] == m[ks[i]] {
        if i > 0 { assert Pick(ks, m)[i] == Pick(ks[1..], m)[i - 1]; }
      }
    }
  }

  /** The last descriptor seen for a key wins, and every key seen is there. */
  lemma {:induction false} LastSeenWins(ds: seq<Descriptor>, k: bytes)
    ensures k in MergeMap(ds) <==> exists i :: 0 <= i < |ds| && HasPartition(ds[i]) && Key(ds[i]) == k
    ensures k in MergeMap(ds) ==>
              exists i :: 0 <= i < |ds| && HasPartition(ds[i]) && Key(ds[i]) == k && MergeMap(ds)[k] == ds[i]
                       && forall j :: i < j < |ds| && HasPartition(ds[j]) ==> Key(ds[j]) != k
  {
    hide Key;
    if ds != [] {
      var n := |ds| - 1;
      var init := ds[..n];
      LastSeenWins(init, k);
      assert forall i :: 0 <= i < n ==> init[i] == ds[i];
      if HasPartition(ds[n]) && Key(ds[n]) == k {
        assert MergeMap(ds)[k] == ds[n];
      }
    }
  }

  /** Element i of the merged list is the dictionary's value for the i-th key. */
  lemma MergedAt(ds: seq<Descriptor>)
    ensures var ks := SortedKeys(MergeMap(ds).Keys);
            && |Merged(ds)| == |ks|
            && (forall k :: k in ks <==> k in MergeMap(ds))
            && StrictlySorted(ks)
            && forall i :: 0 <= i < |ks| ==>
                 var d := Merged(ds)[i];
                 ks[i] in MergeMap(ds) && d == MergeMap(ds)[ks[i]] && HasPartition(d) && d in ds && Key(d) == ks[i]
  {
    hide LexLess, Key, SortedKeys, StrictlySorted, MergeMap, Pick;
    var m := MergeMap(ds);
    var ks := SortedKeys(m.Keys);
    SortedKeysSorted(m.Keys);
    PickAt(ks, m);
    forall i | 0 <= i < |ks|
      ensures var d := Merged(ds)[i];
              ks[i] in m && d == m[ks[i]] && HasPartition(d) && d in ds && Key(d) == ks[i]
    {
      assert ks[i] in ks;
      LastSeenWins(ds, ks[i]);
    }
  }

  /** At most one included descriptor per type and partition name, in canonical order; each is the last one seen. */
  lemma MergedCanonical(ds: seq<Descriptor>)
    ensures var r := Merged(ds);
            && (forall i :: 0 <= i < |r| ==> HasPartition(r[i]) && r[i] in ds)
            && (forall i, j :: 0 <= i < j < |r| ==> LexLess(Key(r[i]), Key(r[j])))
            && (forall i, j :: 0 <= i < j < |r| ==>
                  !(SameClass(r[i], r[j]) && PartitionName(r[i]) == PartitionName(r[j])))
            && (forall d :: d in ds && HasPartition(d) ==> exists i :: 0 <= i < |r| && Key(r[i]) == Key(d))
  {
    hide LexLess, Key, SortedKeys, MergeMap, Merged, SameClass, PartitionName;
    MergedAt(ds);
    var ks, r := SortedKeys(MergeMap(ds).Keys), Merged(ds);
    forall i, j | 0 <= i < j < |r|
      ensures LexLess(Key(r[i]), Key(r[j]))
      ensures !(SameClass(r[i], r[j]) && PartitionName(r[i]) == PartitionName(r[j]))
    {
      assert LexLess(ks[i], ks[j]);
      LexTotal(ks[j], ks[j]);
      KeyInjective(r[i], r[j]);
    }
    forall d | d in ds && HasPartition(d)
      ensures exists i :: 0 <= i < |r| && Key(r[i]) == Key(d)
    {
      LastSeenWins(ds, Key(d));
      assert Key(d) in ks;
      var i :| 0 <= i < |ks| && ks[i] == Key(d);
      assert Key(r[i]) == Key(d);
    }
  }

  ghost predicate DistinctKeys(ds: seq<Descriptor>) {
    && (forall i :: 0 <= i < |ds| ==> HasPartition(ds[i]))
    && (forall i, j :: 0 <= i < j < |ds| ==> Key(ds[i]) != Key(ds[j]))
  }

  lemma DistinctLookup(ds: seq<Descriptor>, d: Descriptor)
    requires DistinctKeys(ds) && d in ds && HasPartition(d)
    ensures Key(d) in MergeMap(ds) && MergeMap(ds)[Key(d)] == d
  {
    hide Key, MergeMap;
    LastSeenWins(ds, Key(d));
    var i :| 0 <= i < |ds| && HasPartition(ds[i]) && Key(ds[i]) == Key(d) && MergeMap(ds)[Key(d)] == ds[i];
    var j :| 0 <= j < |ds| && ds[j] == d;
  }

  /** With distinct keys only, the order of the images does not matter. */
  lemma OrderIrrelevant(a: seq<Descriptor>, b: seq<Descriptor>)
    requires DistinctKeys(a) && DistinctKeys(b) && forall d :: d in a <==> d in b
    ensures Included(a) == Included(b)
  {
    hide Key, MergedOf, MergeMap;
    SameLookups(a, b);
    SameLookups(b, a);
    assert MergeMap(a) == MergeMap(b);
    NoOthers(a);
    NoOthers(b);
  }

  lemma SameLookups(a: seq<Descriptor>, b: seq<Descriptor>)
    requires DistinctKeys(a) && DistinctKeys(b) && forall d :: d in a ==> d in b
    ensures forall k :: k in MergeMap(a) ==> k in MergeMap(b) && MergeMap(b)[k] == MergeMap(a)[k]
  {
    hide Key, MergeMap;
    forall k | k in MergeMap(a) ensures k in MergeMap(b) && MergeMap(b)[k] == MergeMap(a)[k] {
      LastSeenWins(a, k);
      var i :| 0 <= i < |a| && HasPartition(a[i]) && Key(a[i]) == k && MergeMap(a)[k] == a[i];
      assert a[i] in a;
      DistinctLookup(b, a[i]);
    }
  }

  lemma {:induction false} NoOthers(ds: seq<Descriptor>)
    requires forall i :: 0 <= i < |ds| ==> HasPartition(ds[i])
    ensures Others(ds) == []
  {
    if ds != [] {
      NoOthers(ds[..|ds| - 1]);
    }
  }

  lemma {:induction false} OthersConcat(a: seq<Descriptor>, b: seq<Descriptor>)
    ensures Others(a + b) == Others(a) + Others(b)
  {
    if b == [] {
      assert a + b == a;
    } else {
      var n := |b| - 1;
      assert (a + b)[..|a + b| - 1] == a + b[..n];
      OthersConcat(a, b[..n]);
      if !HasPartition(b[n]) { Assoc(Others(a), Others(b[..n]), [b[n]]); }
    }
  }

  lemma {:induction false} MergeMapConcat(a: seq<Descriptor>, b: seq<Descriptor>)
    ensures MergeMap(a + b) == MergeMap(a) + MergeMap(b)
  {
    hide Key;
    if b == [] {
      assert a + b == a;
    } else {
      var n := |b| - 1;
      assert (a + b)[..|a + b| - 1] == a + b[..n];
      MergeMapConcat(a, b[..n]);
    }
  }

  lemma {:induction false} OthersOnly(ds: seq<Descriptor>)
    ensures Others(Others(ds)) == Others(ds)
    ensures MergeMap(Others(ds)) == map[]
    ensures forall i :: 0 <= i < |Others(ds)| ==> !HasPartition(Others(ds)[i])
  {
    if ds != [] {
      var n := |ds| - 1;
      OthersOnly(ds[..n]);
      if !HasPartition(ds[n]) {
        var o := Others(ds[..n]);
        OthersConcat(o, [ds[n]]);
        MergeMapConcat(o, [ds[n]]);
        assert [ds[n]][..0] == [];
      }
    }
  }

  lemma {:induction false} OthersWereMet(ds: seq<Descriptor>)
    ensures forall d :: d in Others(ds) ==> d in ds
  {
    if ds != [] {
      OthersWereMet(ds[..|ds| - 1]);
    }
  }

  /** Nothing is included that no image has. */
  lemma IncludedWereMet(ds: seq<Descriptor>)
    ensures forall d :: d in Included(ds) ==> d in ds
  {
    hide Merged, Others, LexLess, Key;
    OthersWereMet(ds);
    MergedCanonical(ds);
  }

  // ------------------------------------------------------------- what is included

  /** A descriptor with a partition name. */
  predicate Named(d: Descriptor) {
    d.Hash? || d.Hashtree? || d.ChainPartition?
  }

  /** Equal type and partition name. */
  predicate SameKind(d: Descriptor, e: Descriptor)
    requires Named(d) && Named(e)
  {
    d.name == e.name && d.Hash? == e.Hash? && d.Hashtree? == e.Hashtree?
  }

  /** Chain partition descriptors come first, then hash and hashtree descriptors, each by name. */
  predicate Before(d: Descriptor, e: Descriptor)
    requires Named(d) && Named(e)
  {
    var x, y := if d.ChainPartition? then 0 else if d.Hash? then 1 else 2,
                if e.ChainPartition? then 0 else if e.Hash? then 1 else 2;
    x < y || (x == y && LexLess(d.name, e.name))
  }

  /** Positions of the descriptors without a partition name. */
  lemma {:induction false} OthersAt(ds: seq<Descriptor>) returns (at: seq<nat>)
    ensures AreAt(ds, Others(ds), at)
  {
    hide Named, HasPartition, AreAt;
    if ds == [] {
      at := [];
      NothingAt();
    } else {
      var n := |ds| - 1;
      at := OthersAt(ds[..n]);
      NamedIs(ds[n]);
      AtStep(ds, Others(ds[..n]), at);
      if !Named(ds[n]) {
        at := at + [n];
      }
    }
  }

  lemma NothingAt()
    ensures AreAt([], [], [])
  {
  }

  lemma AtStep(ds: seq<Descriptor>, o: seq<Descriptor>, at: seq<nat>)
    requires ds != [] && AreAt(ds[..|ds| - 1], o, at)
    ensures Named(ds[|ds| - 1]) ==> AreAt(ds, o, at)
    ensures !Named(ds[|ds| - 1]) ==> AreAt(ds, o + [ds[|ds| - 1]], at + [|ds| - 1])
  {
    hide Named;
    var n := |ds| - 1;
    var init := ds[..n];
    forall i | 0 <= i < |at| ensures at[i] < n && o[i] == ds[at[i]] {
      assert init[at[i]] == ds[at[i]];
    }
    forall j: nat | j < n ensures j in at <==> !Named(ds[j]) {
      assert init[j] == ds[j];
    }
  }

  lemma NamedIs(d: Descriptor)
    ensures Named(d) <==> HasPartition(d)
  {
  }

  lemma {:induction false} PrefixCancels(p: bytes, x: bytes, y: bytes)
    ensures LexLess(p + x, p + y) <==> LexLess(x, y)
  {
    if p == [] {
      assert p + x == x && p + y == y;
    } else {
      PrefixCancels(p[1..], x, y);
      assert (p + x)[1..] == p[1..] + x && (p + y)[1..] == p[1..] + y;
    }
  }

  /** The first octet that differs decides. */
  lemma {:induction false} FirstDifference(x: bytes, y: bytes, k: nat)
    requires k < |x| && k < |y| && x[..k] == y[..k] && x[k] < y[k]
    ensures LexLess(x, y)
  {
    if k > 0 {
      assert x[0] == x[..k][0] == y[..k][0] == y[0];
      assert x[1..][..k - 1] == x[..k][1..] && y[1..][..k - 1] == y[..k][1..];
      FirstDifference(x[1..], y[1..], k - 1);
    }
  }

  /** The order of the keys is that of types, then names. */
  lemma KeysInOrder(d: Descriptor, e: Descriptor)
    requires Named(d) && Named(e)
    ensures HasPartition(d) && HasPartition(e)
    ensures Before(d, e) ==> LexLess(Key(d), Key(e))
  {
    if Before(d, e) {
      var p, q := ClassPrefix(d), ClassPrefix(e);
      if d.Hash? == e.Hash? && d.Hashtree? == e.Hashtree? {
        assert p == q;
        PrefixCancels(p, d.name, e.name);
      } else {
        PrefixOrder(d, e);
        hide ClassPrefix;
        var k := if d.ChainPartition? then 3 else 7;
        assert Key(d)[..k] == p[..k] && Key(e)[..k] == q[..k];
        FirstDifference(Key(d), Key(e), k);
      }
    }
  }

  lemma PrefixOrder(d: Descriptor, e: Descriptor)
    requires Named(d) && Named(e) && Before(d, e) && !(d.Hash? == e.Hash? && d.Hashtree? == e.Hashtree?)
    ensures var p, q, k := ClassPrefix(d), ClassPrefix(e), if d.ChainPartition? then 3 else 7;
            k < |p| && k < |q| && p[..k] == q[..k] && p[k] < q[k]
  {
    PrefixesDiffer(d);
    PrefixesDiffer(e);
    PrefixStarts(d);
    PrefixStarts(e);
  }

  lemma PrefixStarts(d: Descriptor)
    requires Named(d)
    ensures |ClassPrefix(d)| > 7 && ClassPrefix(d)[..3] == [65, 118, 98]
    ensures !d.ChainPartition? ==> ClassPrefix(d)[..7] == [65, 118, 98, 72, 97, 115, 104]
  {
  }

  /** The descriptor at place i is the last of its type and name. */
  ghost predicate IsLast(ds: seq<Descriptor>, d: Descriptor) {
    exists i :: 0 <= i < |ds| && ds[i] == d
      && forall j :: i < j < |ds| && Named(ds[j]) && Named(d) ==> !SameKind(ds[j], d)
  }

  /** The descriptors of o are those of ds at these places, and at no others are there any without a partition name. */
  ghost predicate AreAt(ds: seq<Descriptor>, o: seq<Descriptor>, at: seq<nat>) {
    && |at| == |o|
    && (forall i :: 0 <= i < |at| ==> at[i] < |ds| && o[i] == ds[at[i]])
    && (forall i, j :: 0 <= i < j < |at| ==> at[i] < at[j])
    && (forall j: nat :: j < |ds| ==> (j in at <==> !Named(ds[j])))
  }

  /** Of each type and partition name in ds the last descriptor, by type and name. */
  ghost predicate AreLast(ds: seq<Descriptor>, m: seq<Descriptor>) {
    && (forall i :: 0 <= i < |m| ==> Named(m[i]) && IsLast(ds, m[i]))
    && (forall i, j :: 0 <= i < j < |m| ==> Before(m[i], m[j]))
    && (forall d :: d in ds && Named(d) ==> exists i :: 0 <= i < |m| && SameKind(m[i], d))
  }

  /**
    What is included: first all descriptors without a partition name, in their order; then, of each type and partition
    name, the last one, by type and name.
   */
  lemma IncludedIs(ds: seq<Descriptor>) returns (at: seq<nat>)
    ensures |at| <= |Included(ds)|
    ensures AreAt(ds, Included(ds)[..|at|], at) && AreLast(ds, Included(ds)[|at|..])
  {
    hide AreLast, Merged, Others;
    at := OthersAt(ds);
    MergedAreLast(ds);
    assert Included(ds)[..|at|] == Others(ds) && Included(ds)[|at|..] == Merged(ds);
  }

  lemma MergedAreLast(ds: seq<Descriptor>)
    ensures AreLast(ds, Merged(ds))
  {
    hide LexLess, Key, Merged, Before, IsLast, SameKind, SameClass, PartitionName, HasPartition;
    var m := Merged(ds);
    forall i | 0 <= i < |m| ensures Named(m[i]) && IsLast(ds, m[i]) {
      MergedIsLast(ds, i);
    }
    forall i, j | 0 <= i < j < |m| ensures Before(m[i], m[j]) {
      MergedInOrder(ds, i, j);
    }
    forall d | d in ds && Named(d) ensures exists i :: 0 <= i < |m| && SameKind(m[i], d) {
      var i := MergedHas(ds, d);
    }
  }

  lemma MergedInOrder(ds: seq<Descriptor>, i: nat, j: nat)
    requires i < j < |Merged(ds)|
    ensures Named(Merged(ds)[i]) && Named(Merged(ds)[j]) && Before(Merged(ds)[i], Merged(ds)[j])
  {
    hide *;
    MergedSorted(ds, i, j);
    InOrder(Merged(ds)[i], Merged(ds)[j]);
  }

  lemma MergedSorted(ds: seq<Descriptor>, i: nat, j: nat)
    requires i < j < |Merged(ds)|
    ensures HasPartition(Merged(ds)[i]) && HasPartition(Merged(ds)[j])
    ensures LexLess(Key(Merged(ds)[i]), Key(Merged(ds)[j]))
  {
    hide *;
    MergedCanonical(ds);
  }

  lemma MergedHas(ds: seq<Descriptor>, d: Descriptor) returns (i: nat)
    requires d in ds && Named(d)
    ensures i < |Merged(ds)| && Named(Merged(ds)[i]) && SameKind(Merged(ds)[i], d)
  {
    hide LexLess, Key, Merged, SameClass, PartitionName;
    MergedCanonical(ds);
    i :| 0 <= i < |Merged(ds)| && Key(Merged(ds)[i]) == Key(d);
    KeyInjective(Merged(ds)[i], d);
    KindOfKey(Merged(ds)[i], d);
  }

  lemma KindOfKey(d: Descriptor, e: Descriptor)
    requires HasPartition(d) && HasPartition(e)
    ensures Named(d) && Named(e)
    ensures SameKind(d, e) <==> SameClass(d, e) && PartitionName(d) == PartitionName(e)
  {
  }

  lemma InOrder(d: Descriptor, e: Descriptor)
    requires HasPartition(d) && HasPartition(e) && LexLess(Key(d), Key(e))
    ensures Named(d) && Named(e) && Before(d, e)
  {
    hide LexLess, Key;
    LexTotal(Key(d), Key(e));
    KindOfKey(d, e);
    KeyInjective(d, e);
    KeysInOrder(e, d);
    LexTotal(d.name, e.name);
  }

  lemma MergedIsLast(ds: seq<Descriptor>, i: nat)
    requires i < |Merged(ds)|
    ensures Named(Merged(ds)[i]) && IsLast(ds, Merged(ds)[i])
  {
    hide LexLess, Key, SortedKeys, MergeMap, Merged, StrictlySorted;
    MergedAt(ds);
    var d := Merged(ds)[i];
    LastSeenWins(ds, Key(d));
    var k :| 0 <= k < |ds| && HasPartition(ds[k]) && Key(ds[k]) == Key(d) && MergeMap(ds)[Key(d)] == ds[k]
             && forall j :: k < j < |ds| && HasPartition(ds[j]) ==> Key(ds[j]) != Key(d);
    forall j | k < j < |ds| && Named(ds[j]) && Named(d) ensures !SameKind(ds[j], d) {
      KindOfKey(ds[j], d);
      KeyInjective(ds[j], d);
    }
  }

  /** Including just the result again reproduces it. */
  lemma IncludedIdempotent(ds: seq<Descriptor>)
    ensures Included(Included(ds)) == Included(ds)
  {
    hide LexLess, Key, SortedKeys, MergedOf, MergeMap, Others;
    var r, o := Merged(ds), Others(ds);
    MergedCanonical(ds);
    OthersOnly(ds);
    OthersConcat(o, r);
    NoOthers(r);
    assert o + [] == o;
    MergeMapConcat(o, r);
    MergedAgain(ds);
    assert map[] + MergeMap(r) == MergeMap(r);
  }

  lemma MergedAgain(ds: seq<Descriptor>)
    ensures MergeMap(Merged(ds)) == MergeMap(ds)
  {
    hide LexLess, Key, SortedKeys, MergedOf, MergeMap, Merged;
    var m, ks, r := MergeMap(ds), SortedKeys(MergeMap(ds).Keys), Merged(ds);
    MergedAt(ds);
    forall k
      ensures k in MergeMap(r) <==> k in m
      ensures k in m && k in MergeMap(r) ==> MergeMap(r)[k] == m[k]
    {
      LastSeenWins(r, k);
      if k in m {
        var i :| 0 <= i < |ks| && ks[i] == k;
        assert Key(r[i]) == k;
      }
    }
  }

  // ------------------------------------------------------------- two descriptors

  lemma SortedPair(k: bytes, l: bytes)
    requires LexLess(k, l)
    ensures SortedKeys({k, l}) == [k, l]
  {
    LexTotal(k, l);
    hide LexLess;
    LeastUnique(k, {k, l});
    LeastUnique(l, {l});
    assert {k, l} - {k} == {l} && {l} - {l} == {};
    assert SortedKeys({}) == [];
    assert SortedKeys({l}) == [l];
  }

  lemma PickPair(k: bytes, l: bytes, m: map<bytes, Descriptor>)
    requires k in m && l in m
    ensures Pick([k, l], m) == [m[k], m[l]]
  {
    var r := Pick([k, l], m);
    PickAt([k, l], m);
    assert r[0] == m[k] && r[1] == m[l];
  }

  lemma MapPair(d: Descriptor, e: Descriptor)
    requires HasPartition(d) && HasPartition(e)
    ensures MergeMap([d, e]) == map[Key(d) := d][Key(e) := e] && Others([d, e]) == []
  {
    hide Key;
    assert [d, e][..1] == [d] && [d][..0] == [];
    assert MergeMap([d]) == map[][Key(d) := d] && Others([d]) == [];
  }

  /** Two partition descriptors in key order are included as they are. */
  lemma IncludedPair(d: Descriptor, e: Descriptor)
    requires HasPartition(d) && HasPartition(e) && LexLess(Key(d), Key(e))
    ensures Included([d, e]) == [d, e]
  {
    LexTotal(Key(d), Key(e));
    MapPair(d, e);
    SortedPair(Key(d), Key(e));
    hide LexLess, Key, SortedKeys, MergeMap, Others, HasPartition, Pick;
    var m := MergeMap([d, e]);
    assert m.Keys == {Key(d), Key(e)};
    PickPair(Key(d), Key(e), m);
    assert [] + [d, e] == [d, e];
  }

  // ------------------------------------------------------------- the loops

  predicate AllPackable(ds: seq<Descriptor>) {
    forall i :: 0 <= i < |ds| ==> Packable(ds[i])
  }

  /**
    The loop over included images: a dictionary is filled, other descriptors are appended. Every descriptor met is
    encoded, even one that a later one replaces.
   */
  method MergeLoop(images: seq<seq<Descriptor>>)
    returns (r: Result<()>, others: seq<Descriptor>, dict: map<bytes, Descriptor>)
    ensures r.Ok? <==> AllPackable(Flatten(images))
    ensures r.Ok? ==> others == Others(Flatten(images)) && dict == MergeMap(Flatten(images))
    ensures r.Err? ==> r.error == StructError
  {
    hide Key, Others, MergeMap, HasPartition, Flatten, Packable;
    NothingMerged();
    others, dict := [], map[];
    assert images[..0] == [];
    for i := 0 to |images|
      invariant others == Others(Flatten(images[..i])) && dict == MergeMap(Flatten(images[..i]))
      invariant AllPackable(Flatten(images[..i]))
    {
      FlattenStep(images, i);
      ghost var seen := Flatten(images[..i]);
      for j := 0 to |images[i]|
        invariant others == Others(seen + images[i][..j]) && dict == MergeMap(seen + images[i][..j])
        invariant AllPackable(seen + images[i][..j])
      {
        var desc := images[i][j];
        if !Packable(desc) {
          FlattenHolds(images, i, j);
          return Err(StructError), others, dict;
        }
        TakeOneMore(seen, images[i], j);
        if HasPartition(desc) {
          dict := dict[Key(desc) := desc];
        } else {
          others := others + [desc];
        }
      }
      assert images[i][..|images[i]|] == images[i];
    }
    assert images[..|images|] == images;
    r := Ok(());
  }

  lemma {:induction false} FlattenHolds(images: seq<seq<Descriptor>>, i: nat, j: nat)
    requires i < |images| && j < |images[i]|
    ensures images[i][j] in Flatten(images)
    decreases |images|
  {
    var n := |images| - 1;
    if i < n {
      assert images[..n][i] == images[i];
      FlattenHolds(images[..n], i, j);
    }
  }

  lemma NothingMerged()
    ensures Flatten([]) == [] && Others([]) == [] && MergeMap([]) == map[]
  {
  }

  lemma TakeOneMore(seen: seq<Descriptor>, ds: seq<Descriptor>, j: nat)
    requires j < |ds|
    ensures var (m, o) := (MergeMap(seen + ds[..j]), Others(seen + ds[..j]));
            && MergeMap(seen + ds[..j + 1]) == (if HasPartition(ds[j]) then m[Key(ds[j]) := ds[j]] else m)
            && Others(seen + ds[..j + 1]) == (if HasPartition(ds[j]) then o else o + [ds[j]])
            && seen + ds[..j + 1] == (seen + ds[..j]) + [ds[j]]
  {
    hide Key;
    var t := seen + ds[..j + 1];
    assert t[|t| - 1] == ds[j] && t[..|t| - 1] == seen + ds[..j];
  }

  function Flatten(images: seq<seq<Descriptor>>): seq<Descriptor> {
    if images == [] then [] else Flatten(images[..|images| - 1]) + images[|images| - 1]
  }

  lemma FlattenStep(images: seq<seq<Descriptor>>, i: nat)
    requires i < |images|
    ensures Flatten(images[..i + 1]) == Flatten(images[..i]) + images[i]
    ensures Flatten(images[..i]) + [] == Flatten(images[..i])
  {
    assert images[..i + 1][..i] == images[..i];
  }

  /** for key in sorted(dict) */
  method SortedValues(dict: map<bytes, Descriptor>) returns (r: seq<Descriptor>)
    ensures r == MergedOf(dict)
  {
    hide LexLess;
    SortedKeysSorted(dict.Keys);
    var left := dict.Keys;
    r := [];
    ghost var all := Pick(SortedKeys(dict.Keys), dict);
    while left != {}
      invariant left <= dict.Keys
      invariant (forall k :: k in SortedKeys(left) <==> k in left) && r + Pick(SortedKeys(left), dict) == all
      decreases left
    {
      var k := LeastOf(left);
      SortedKeysSorted(left - {k});
      LeastUnique(k, left);
      Assoc(r, [dict[k]], Pick(SortedKeys(left - {k}), dict));
      assert SortedKeys(left)[0] == k && SortedKeys(left)[1..] == SortedKeys(left - {k});
      r := r + [dict[k]];
      left := left - {k};
    }
    assert r + [] == r;
  }

  lemma LeastUnique(k: bytes, s: set<bytes>)
    requires IsLeast(k, s)
    ensures k == Least(s)
  {
    LexTotal(k, Least(s));
  }

  method LeastOf(s: set<bytes>) returns (k: bytes)
    requires s != {}
    ensures IsLeast(k, s)
  {
    hide LexLess;
    k :| k in s;
    var left := s - {k};
    while left != {}
      invariant left < s && k in s && k !in left
      invariant forall x :: x in s && x !in left && x != k ==> LexLess(k, x)
      decreases left
    {
      var y :| y in left;
      LexTotal(y, k);
      if LexLess(y, k) {
        forall x | x in s && x !in left - {y} && x != y ensures LexLess(y, x) {
          if x != k { LexTransitive(y, k, x); }
        }
        k := y;
      }
      left := left - {y};
    }
  }
}
