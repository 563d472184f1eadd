/** An optional value, and the loop that keeps the values present in a sequence of them. */
module Wrappers {

  /** Some value, or nothing (a regex that did not match, a subprocess that raised). */
  datatype Option<+T> = None | Some(value: T)

  /** The values of the `Some` entries, in order: the `if match: ...append(...)` of a loop. */
  function Somes<T>(opts: seq<Option<T>>): (r: seq<T>)
    ensures |r| <= |opts|
  {
    if |opts| == 0 then []
    else
      var rest := Somes(opts[1..]);
      if opts[0].Some? then [opts[0].value] + rest else rest
  }

  /** Every value kept is one of the `Some` entries. */
  lemma {:induction false} SomesMembers<T>(opts: seq<Option<T>>)
    ensures forall k :: 0 <= k < |Somes(opts)| ==> Some(Somes(opts)[k]) in opts
    decreases |opts|
  {
    if |opts| > 0 {
      SomesMembers(opts[1..]);
      assert forall o :: o in opts[1..] ==> o in opts;
    }
  }

  predicate StrictlyIncreasing(idx: seq<nat>) {
    forall i, j :: 0 <= i < j < |idx| ==> idx[i] < idx[j]
  }

  /**
    `r` is the subsequence of `Some` values of `opts`: `idx` lists, in
    increasing order, the positions they came from, and every `Some` position
    is listed.
   */
  ghost predicate IsSomesOf<T>(r: seq<T>, opts: seq<Option<T>>, idx: seq<nat>) {
    && |idx| == |r| && StrictlyIncreasing(idx)
    && (forall k :: 0 <= k < |idx| ==> idx[k] < |opts| && opts[idx[k]] == Some(r[k]))
    && (forall j :: 0 <= j < |opts| && opts[j].Some? ==> j in idx)
  }

  function Shift(idx: seq<nat>): (r: seq<nat>)
    ensures |r| == |idx| && forall k :: 0 <= k < |idx| ==> r[k] == idx[k] + 1
  {
    seq(|idx|, k requires 0 <= k < |idx| => idx[k] + 1)
  }

  /** Shifting keeps positions increasing, also behind a leading zero. */
  lemma ShiftIncreasing(idx: seq<nat>)
    requires StrictlyIncreasing(idx)
    ensures StrictlyIncreasing(Shift(idx)) && StrictlyIncreasing([0] + Shift(idx))
  {
    var full := [0] + Shift(idx);
    forall i, j | 0 <= i < j < |full| ensures full[i] < full[j] {
      assert full[j] == idx[j - 1] + 1;
      if i > 0 {
        assert full[i] == idx[i - 1] + 1;
      }
    }
  }

  /** The shifted positions of `opts[1..]` are positions of `opts` holding the same values. */
  lemma ShiftValues<T>(r: seq<T>, opts: seq<Option<T>>, idx: seq<nat>)
    requires |opts| > 0 && |idx| == |r|
    requires forall k :: 0 <= k < |idx| ==> idx[k] < |opts[1..]| && opts[1..][idx[k]] == Some(r[k])
    ensures forall k :: 0 <= k < |idx| ==> Shift(idx)[k] < |opts| && opts[Shift(idx)[k]] == Some(r[k])
  {
    forall k | 0 <= k < |idx| ensures Shift(idx)[k] < |opts| && opts[Shift(idx)[k]] == Some(r[k]) {
      assert opts[1..][idx[k]] == opts[idx[k] + 1];
    }
  }

  /** Every `Some` position of `opts` after the first is a shifted position of `opts[1..]`. */
  lemma ShiftCovers<T>(opts: seq<Option<T>>, idx: seq<nat>)
    requires |opts| > 0
    requires forall j :: 0 <= j < |opts[1..]| && opts[1..][j].Some? ==> j in idx
    ensures forall j :: 0 < j < |opts| && opts[j].Some? ==> j in Shift(idx)
  {
    forall j | 0 < j < |opts| && opts[j].Some? ensures j in Shift(idx) {
      assert opts[1..][j - 1] == opts[j];
      var k :| 0 <= k < |idx| && idx[k] == j - 1;
      assert Shift(idx)[k] == j;
    }
  }

  /** A `None` in front shifts every position by one. */
  lemma SomesOfNone<T>(r: seq<T>, opts: seq<Option<T>>, idx: seq<nat>)
    requires |opts| > 0 && opts[0].None? && IsSomesOf(r, opts[1..], idx)
    ensures IsSomesOf(r, opts, Shift(idx))
  {
    ShiftIncreasing(idx);
    ShiftValues(r, opts, idx);
    ShiftCovers(opts, idx);
  }

  /** With a `Some` in front, position zero and the shifted positions hold the kept values. */
  lemma SomeFrontValues<T>(r: seq<T>, opts: seq<Option<T>>, idx: seq<nat>)
    requires |opts| > 0 && opts[0].Some? && |idx| == |r|
    requires forall k :: 0 <= k < |idx| ==> Shift(idx)[k] < |opts| && opts[Shift(idx)[k]] == Some(r[k])
    ensures forall k :: 0 <= k < |[0] + Shift(idx)| ==>
      ([0] + Shift(idx))[k] < |opts| && opts[([0] + Shift(idx))[k]] == Some(([opts[0].value] + r)[k])
  {
    var sh := Shift(idx);
    var full := [0] + sh;
    var r' := [opts[0].value] + r;
    forall k | 0 <= k < |full| ensures full[k] < |opts| && opts[full[k]] == Some(r'[k]) {
      if k > 0 {
        assert full[k] == sh[k - 1] && r'[k] == r[k - 1];
      }
    }
  }

  /** With a `Some` in front, position zero and the shifted positions cover every `Some`. */
  lemma SomeFrontCovers<T>(opts: seq<Option<T>>, idx: seq<nat>)
    requires |opts| > 0
    requires forall j :: 0 < j < |opts| && opts[j].Some? ==> j in Shift(idx)
    ensures forall j :: 0 <= j < |opts| && opts[j].Some? ==> j in [0] + Shift(idx)
  {
    var sh := Shift(idx);
    var full := [0] + sh;
    forall j | 0 <= j < |opts| && opts[j].Some? ensures j in full {
      if j > 0 {
        assert j in sh;
        var k :| 0 <= k < |sh| && sh[k] == j;
        assert full[k + 1] == j;
      } else {
        assert full[0] == 0;
      }
    }
  }

  /** A `Some` in front is listed first, at position zero. */
  lemma SomesOfSome<T>(r: seq<T>, opts: seq<Option<T>>, idx: seq<nat>)
    requires |opts| > 0 && opts[0].Some? && IsSomesOf(r, opts[1..], idx)
    ensures IsSomesOf([opts[0].value] + r, opts, [0] + Shift(idx))
  {
    ShiftIncreasing(idx);
    ShiftValues(r, opts, idx);
    ShiftCovers(opts, idx);
    SomeFrontValues(r, opts, idx);
    SomeFrontCovers(opts, idx);
  }

  lemma {:induction false} SomesSpec<T>(opts: seq<Option<T>>)
    ensures exists idx :: IsSomesOf(Somes(opts), opts, idx)
    decreases |opts|
  {
    if |opts| == 0 {
      assert Somes(opts) == [];
      assert IsSomesOf([], opts, []);
    } else {
      var tail := opts[1..];
      SomesSpec(tail);
      var idx :| IsSomesOf(Somes(tail), tail, idx);
      if opts[0].Some? {
        SomesOfSome(Somes(tail), opts, idx);
        assert Somes(opts) == [opts[0].value] + Somes(tail);
      } else {
        SomesOfNone(Somes(tail), opts, idx);
        assert Somes(opts) == Somes(tail);
      }
    }
  }
}
