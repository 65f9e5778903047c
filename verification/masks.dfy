/** Boolean masks over sequences: the pandas idiom `df[mask]`, `df.dropna(...)` and
    `df.drop_duplicates(keep='first')` all select the rows at the positions where a mask
    holds. This module defines that selection once and characterises it by positions. */
module Masks {

  /** No two entries of `s` are equal. */
  ghost predicate Distinct<T>(s: seq<T>)
  {
    forall i, j :: 0 <= i < j < |s| ==> s[i] != s[j]
  }

  /** Number of positions where the mask holds. */
  function CountTrue(m: seq<bool>): nat
  {
    if |m| == 0 then 0 else CountTrue(m[..|m| - 1]) + (if m[|m| - 1] then 1 else 0)
  }

  /** Boolean indexing `s[m]`: the entries of `s` at the positions where `m` holds. */
  function Mask<T>(s: seq<T>, m: seq<bool>): (r: seq<T>)
    requires |m| == |s|
    ensures |r| == CountTrue(m)
  {
    if |s| == 0 then []
    else Mask(s[..|s| - 1], m[..|m| - 1]) + (if m[|m| - 1] then [s[|s| - 1]] else [])
  }

  /** The keys `[key(x) for x in s]`. */
  function KeysOf<T, K>(s: seq<T>, key: T -> K): (ks: seq<K>)
    ensures |ks| == |s|
  {
    seq(|s|, i requires 0 <= i < |s| => key(s[i]))
  }

  /** The mask `[p(x) for x in s]`: the keys of `s` under a predicate. */
  function MaskOf<T>(s: seq<T>, p: T -> bool): (m: seq<bool>)
    ensures |m| == |s|
  {
    KeysOf(s, p)
  }

  /** The entries of `s` that satisfy `p`, in order. */
  function Filter<T>(s: seq<T>, p: T -> bool): seq<T>
  {
    Mask(s, MaskOf(s, p))
  }

  /** Pointwise negation `~m`. */
  function Not(m: seq<bool>): (r: seq<bool>)
    ensures |r| == |m|
  {
    seq(|m|, i requires 0 <= i < |m| => !m[i])
  }

  /** Pointwise conjunction `m1 & m2`. */
  function And(m1: seq<bool>, m2: seq<bool>): (r: seq<bool>)
    requires |m1| == |m2|
    ensures |r| == |m1|
  {
    seq(|m1|, i requires 0 <= i < |m1| => m1[i] && m2[i])
  }

  /** The positions where the mask holds, in ascending order. */
  function TrueIndices(m: seq<bool>): (r: seq<nat>)
    ensures |r| == CountTrue(m)
  {
    if |m| == 0 then []
    else TrueIndices(m[..|m| - 1]) + (if m[|m| - 1] then [|m| - 1] else [])
  }

  /** `idx` lists, strictly increasing, exactly the positions where `m` holds. */
  ghost predicate Enumerates(idx: seq<nat>, m: seq<bool>)
  {
    && (forall k :: 0 <= k < |idx| ==> idx[k] < |m| && m[idx[k]])
    && (forall k, l :: 0 <= k < l < |idx| ==> idx[k] < idx[l])
    && (forall i {:trigger i in idx} :: 0 <= i < |m| && m[i] ==> i in idx)
  }

  /** `r` is the order-preserving selection of the entries of `s` at exactly the
      positions where `m` holds: its k-th entry is the entry at the k-th such position. */
  ghost predicate IsSelection<T>(r: seq<T>, s: seq<T>, m: seq<bool>)
  {
    && |m| == |s|
    && Enumerates(TrueIndices(m), m)
    && |r| == |TrueIndices(m)|
    && forall k :: 0 <= k < |r| ==> r[k] == s[TrueIndices(m)[k]]
  }

  lemma {:induction false} TrueIndicesEnumerate(m: seq<bool>)
    ensures Enumerates(TrueIndices(m), m)
    decreases |m|
  {
    if |m| > 0 {
      var m' := m[..|m| - 1];
      TrueIndicesEnumerate(m');
      var idx' := TrueIndices(m');
      var idx := TrueIndices(m);
      assert idx == idx' + (if m[|m| - 1] then [|m| - 1] else []);
      forall i | 0 <= i < |m| && m[i]
        ensures i in idx
      {
        if i < |m| - 1 {
          assert m'[i];
          assert i in idx';
        } else {
          assert idx[|idx| - 1] == i;
        }
      }
    }
  }

  /** Boolean indexing is exactly the order-preserving selection at the mask's positions. */
  lemma {:induction false} MaskSelects<T>(s: seq<T>, m: seq<bool>)
    requires |m| == |s|
    ensures IsSelection(Mask(s, m), s, m)
    decreases |s|
  {
    TrueIndicesEnumerate(m);
    if |s| > 0 {
      var s', m' := s[..|s| - 1], m[..|m| - 1];
      MaskSelects(s', m');
      var r := Mask(s, m);
      var idx := TrueIndices(m);
      assert r == Mask(s', m') + (if m[|m| - 1] then [s[|s| - 1]] else []);
      assert idx == TrueIndices(m') + (if m[|m| - 1] then [|m| - 1] else []);
      forall k | 0 <= k < |r|
        ensures r[k] == s[idx[k]]
      {
        if k < |Mask(s', m')| {
          assert r[k] == s'[TrueIndices(m')[k]];
        }
      }
    }
  }

  /** A mask that holds everywhere selects the whole sequence. */
  lemma {:induction false} MaskAllTrue<T>(s: seq<T>, m: seq<bool>)
    requires |m| == |s|
    requires forall i :: 0 <= i < |m| ==> m[i]
    ensures Mask(s, m) == s
    decreases |s|
  {
    if |s| > 0 {
      MaskAllTrue(s[..|s| - 1], m[..|m| - 1]);
      assert s == s[..|s| - 1] + [s[|s| - 1]];
    }
  }

  /** Boolean indexing of a sequence with one more entry in front. */
  lemma {:induction false} MaskCons<T>(x: T, s: seq<T>, b: bool, m: seq<bool>)
    requires |m| == |s|
    ensures Mask([x] + s, [b] + m) == (if b then [x] else []) + Mask(s, m)
    decreases |s|
  {
    if |s| > 0 {
      var s', m' := s[..|s| - 1], m[..|m| - 1];
      MaskCons(x, s', b, m');
      assert ([x] + s)[..|s|] == [x] + s';
      assert ([b] + m)[..|m|] == [b] + m';
    } else {
      assert ([x] + s)[..0] == [];
    }
  }

  /** Filtering keeps everything when every entry satisfies the predicate. */
  lemma FilterAllPass<T>(s: seq<T>, p: T -> bool)
    requires forall i :: 0 <= i < |s| ==> p(s[i])
    ensures Filter(s, p) == s
  {
    MaskAllTrue(s, MaskOf(s, p));
  }

  /** Filtering drops a leading entry that fails the predicate. */
  lemma FilterDropsHead<T>(x: T, s: seq<T>, p: T -> bool)
    requires !p(x)
    ensures Filter([x] + s, p) == Filter(s, p)
  {
    assert MaskOf([x] + s, p) == [false] + MaskOf(s, p);
    MaskCons(x, s, false, MaskOf(s, p));
  }

  /** Filtering a selection by a row predicate equals selecting once with the conjoined
      mask; this is how a chain of pandas filters collapses to a single selection. */
  lemma {:induction false} FilterAfterMask<T>(s: seq<T>, m: seq<bool>, p: T -> bool)
    requires |m| == |s|
    ensures Filter(Mask(s, m), p) == Mask(s, And(m, MaskOf(s, p)))
    decreases |s|
  {
    if |s| > 0 {
      var s', m' := s[..|s| - 1], m[..|m| - 1];
      FilterAfterMask(s', m', p);
      var a := Mask(s', m');
      var x := s[|s| - 1];
      assert And(m, MaskOf(s, p))[..|s| - 1] == And(m', MaskOf(s', p));
      if m[|m| - 1] {
        var ax := a + [x];
        assert Mask(s, m) == ax;
        assert ax[..|ax| - 1] == a;
        assert MaskOf(ax, p)[..|ax| - 1] == MaskOf(a, p);
      } else {
        assert Mask(s, m) == a;
      }
    }
  }

  /** Every selected entry comes from a selected position. */
  lemma SelectionFrom<T>(r: seq<T>, s: seq<T>, m: seq<bool>)
    requires IsSelection(r, s, m)
    ensures forall x :: x in r ==> exists i :: 0 <= i < |s| && m[i] && s[i] == x
  {
    var idx := TrueIndices(m);
    forall x | x in r
      ensures exists i :: 0 <= i < |s| && m[i] && s[i] == x
    {
      var k :| 0 <= k < |r| && r[k] == x;
      assert m[idx[k]] && s[idx[k]] == x;
    }
  }

  /** Every selected position contributes its entry. */
  lemma SelectionKeeps<T>(r: seq<T>, s: seq<T>, m: seq<bool>)
    requires IsSelection(r, s, m)
    ensures forall i :: 0 <= i < |s| && m[i] ==> s[i] in r
  {
    var idx := TrueIndices(m);
    forall i | 0 <= i < |s| && m[i]
      ensures s[i] in r
    {
      assert i in idx;
      var k :| 0 <= k < |idx| && idx[k] == i;
      assert r[k] == s[i];
    }
  }

  /** A selection of a sequence without repeats has no repeats. */
  lemma SelectionDistinct<T>(r: seq<T>, s: seq<T>, m: seq<bool>)
    requires IsSelection(r, s, m)
    requires Distinct(s)
    ensures Distinct(r)
  {
    var idx := TrueIndices(m);
    forall k, l | 0 <= k < l < |r|
      ensures r[k] != r[l]
    {
      assert idx[k] < idx[l];
    }
  }

  /** A mask that holds nowhere counts zero. */
  lemma {:induction false} CountTrueNone(m: seq<bool>)
    requires forall i :: 0 <= i < |m| ==> !m[i]
    ensures CountTrue(m) == 0
    decreases |m|
  {
    if |m| > 0 {
      CountTrueNone(m[..|m| - 1]);
    }
  }

  /** A mask that holds at one position at most counts at most one. */
  lemma {:induction false} CountTrueAtMostOne(m: seq<bool>)
    requires forall i, j :: 0 <= i < |m| && 0 <= j < |m| && m[i] && m[j] ==> i == j
    ensures CountTrue(m) <= 1
    decreases |m|
  {
    if |m| > 0 {
      var m' := m[..|m| - 1];
      CountTrueAtMostOne(m');
      if m[|m| - 1] {
        CountTrueNone(m');
      }
    }
  }

  /** The key `keys[i]` does not occur earlier in `keys`. */
  ghost predicate FirstOccurrence<K>(keys: seq<K>, i: int)
    requires 0 <= i < |keys|
  {
    forall j :: 0 <= j < i ==> keys[j] != keys[i]
  }

  /** pandas `duplicated(keep='first')` as its hash-table scan computes it: walking left to
      right with the set of keys seen so far, an entry is flagged when its key is in that set. */
  function DuplicatedFrom<K>(keys: seq<K>, seen: set<K>): (r: seq<bool>)
    ensures |r| == |keys|
  {
    if |keys| == 0 then []
    else [keys[0] in seen] + DuplicatedFrom(keys[1..], seen + {keys[0]})
  }

  function Duplicated<K(==)>(keys: seq<K>): (r: seq<bool>)
    ensures |r| == |keys|
  {
    DuplicatedFrom(keys, {})
  }

  lemma {:induction false} DuplicatedFromFlags<K>(keys: seq<K>, seen: set<K>)
    ensures forall i :: 0 <= i < |keys| ==>
      (DuplicatedFrom(keys, seen)[i] <==> keys[i] in seen || !FirstOccurrence(keys, i))
    decreases |keys|
  {
    if |keys| > 0 {
      var tail := keys[1..];
      var seen' := seen + {keys[0]};
      DuplicatedFromFlags(tail, seen');
      var r := DuplicatedFrom(keys, seen);
      assert r == [keys[0] in seen] + DuplicatedFrom(tail, seen');
      forall i | 0 < i < |keys|
        ensures r[i] <==> keys[i] in seen || !FirstOccurrence(keys, i)
      {
        assert r[i] == DuplicatedFrom(tail, seen')[i - 1];
        assert tail[i - 1] == keys[i];
        if !FirstOccurrence(tail, i - 1) {
          var j :| 0 <= j < i - 1 && tail[j] == tail[i - 1];
          assert keys[j + 1] == keys[i];
        }
        if !FirstOccurrence(keys, i) {
          var j :| 0 <= j < i && keys[j] == keys[i];
          if j > 0 {
            assert tail[j - 1] == tail[i - 1];
          }
        }
      }
    }
  }

  /** An entry is flagged as a duplicate exactly when its key occurred earlier. */
  lemma DuplicatedFlags<K>(keys: seq<K>)
    ensures forall i :: 0 <= i < |keys| ==> (Duplicated(keys)[i] <==> !FirstOccurrence(keys, i))
  {
    DuplicatedFromFlags(keys, {});
  }

  /** Selecting only first occurrences of their key leaves pairwise distinct keys. */
  lemma SelectionOfFirstOccurrences<T, K>(r: seq<T>, s: seq<T>, m: seq<bool>, key: T -> K)
    requires IsSelection(r, s, m)
    requires forall i :: 0 <= i < |s| && m[i] ==> FirstOccurrence(KeysOf(s, key), i)
    ensures Distinct(KeysOf(r, key))
  {
    var idx := TrueIndices(m);
    var ks := KeysOf(s, key);
    forall k, l | 0 <= k < l < |r|
      ensures KeysOf(r, key)[k] != KeysOf(r, key)[l]
    {
      assert idx[k] < idx[l];
      assert FirstOccurrence(ks, idx[l]);
      assert ks[idx[k]] != ks[idx[l]];
    }
  }
}
