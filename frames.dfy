/** Tabular primitives shared by every page: missing values and boolean-mask
    row selection (`df[mask]`), which keeps the rows whose mask entry holds,
    in their original order. */
module Frames {

  /** A cell that may be missing (a pandas NaN). Comparing a missing cell with
      `==` is false and with `!=` is true, which `Some(1) == c` reproduces. */
  datatype Option<T> = None | Some(value: T)

  /** pandas `sum` skips NaN: a missing real contributes nothing. */
  function SkipNa(c: Option<real>): (v: real)
    ensures c.None? ==> v == 0.0
    ensures c.Some? ==> v == c.value
  {
    match c
    case None => 0.0
    case Some(x) => x
  }

  /** `np.select(conds, choices, default)`: the choice of the first condition
      that holds, or the default when none holds. */
  function FirstMatch<T>(conds: seq<bool>, choices: seq<T>, default: T): (r: T)
    requires |conds| == |choices|
    ensures forall i :: 0 <= i < |conds| && conds[i] && (forall j :: 0 <= j < i ==> !conds[j]) ==> r == choices[i]
    ensures (forall i :: 0 <= i < |conds| ==> !conds[i]) ==> r == default
    decreases |conds|
  {
    if conds == [] then default
    else if conds[0] then choices[0]
    else FirstMatch(conds[1..], choices[1..], default)
  }

  /** Keeps s[i] exactly where keep[i] holds; the shape of `df[mask]`. */
  function Pick<T>(s: seq<T>, keep: seq<bool>): seq<T>
    requires |keep| == |s|
    decreases |s|
  {
    if s == [] then [] else (if keep[0] then [s[0]] else []) + Pick(s[1..], keep[1..])
  }

  /** `a` can be obtained from `b` by deleting rows: some mask over `b` picks it. */
  ghost predicate SubsequenceOf<T>(a: seq<T>, b: seq<T>)
  {
    exists keep: seq<bool> :: |keep| == |b| && Pick(b, keep) == a
  }

  /** The boolean series `p` evaluated on every row. */
  function MaskOf<T>(s: seq<T>, p: T -> bool): (m: seq<bool>)
    ensures |m| == |s|
    ensures forall i :: 0 <= i < |s| ==> m[i] == p(s[i])
  {
    seq(|s|, i requires 0 <= i < |s| => p(s[i]))
  }

  /** Row selection by a predicate: the rows of `s` satisfying `p`, in order. */
  function Select<T(!new)>(s: seq<T>, p: T -> bool): (r: seq<T>)
    ensures |r| <= |s|
    ensures forall x :: x in r <==> x in s && p(x)
    decreases |s|
  {
    if s == [] then [] else (if p(s[0]) then [s[0]] else []) + Select(s[1..], p)
  }

  /** Conjunction of two row predicates (`mask1 & mask2`). */
  function Both<T>(p: T -> bool, q: T -> bool): T -> bool
  {
    x => p(x) && q(x)
  }

  /** Selection is mask indexing, so its result is a subsequence of its input. */
  lemma {:induction false} SelectIsPick<T(!new)>(s: seq<T>, p: T -> bool)
    ensures Select(s, p) == Pick(s, MaskOf(s, p))
    decreases |s|
  {
    if s != [] {
      assert MaskOf(s, p)[1..] == MaskOf(s[1..], p);
      SelectIsPick(s[1..], p);
    }
  }

  lemma SelectIsSubsequence<T(!new)>(s: seq<T>, p: T -> bool)
    ensures SubsequenceOf(Select(s, p), s)
  {
    SelectIsPick(s, p);
    var keep := MaskOf(s, p);
    assert |keep| == |s| && Pick(s, keep) == Select(s, p);
  }

  /** Selecting from a concatenation selects from each part. */
  lemma {:induction false} SelectAppend<T(!new)>(a: seq<T>, b: seq<T>, p: T -> bool)
    ensures Select(a + b, p) == Select(a, p) + Select(b, p)
    decreases |a|
  {
    if a == [] {
      assert a + b == b;
    } else {
      assert (a + b)[0] == a[0];
      assert (a + b)[1..] == a[1..] + b;
      SelectAppend(a[1..], b, p);
    }
  }

  /** Selection keeps every row when every row satisfies the predicate. */
  lemma {:induction false} SelectAll<T(!new)>(s: seq<T>, p: T -> bool)
    requires forall x :: x in s ==> p(x)
    ensures Select(s, p) == s
    decreases |s|
  {
    if s != [] {
      assert s[0] in s;
      assert forall x :: x in s[1..] ==> x in s;
      SelectAll(s[1..], p);
      assert [s[0]] + s[1..] == s;
    }
  }

  /** Selection keeps nothing when no row satisfies the predicate. */
  lemma {:induction false} SelectNone<T(!new)>(s: seq<T>, p: T -> bool)
    requires forall x :: x in s ==> !p(x)
    ensures Select(s, p) == []
    decreases |s|
  {
    if s != [] {
      assert s[0] in s;
      assert forall x :: x in s[1..] ==> x in s;
      SelectNone(s[1..], p);
    }
  }

  /** Two predicates that agree on every row select the same rows. */
  lemma {:induction false} SelectExt<T(!new)>(s: seq<T>, p: T -> bool, q: T -> bool)
    requires forall x :: x in s ==> p(x) == q(x)
    ensures Select(s, p) == Select(s, q)
    decreases |s|
  {
    if s != [] {
      assert s[0] in s;
      assert forall x :: x in s[1..] ==> x in s;
      SelectExt(s[1..], p, q);
    }
  }

  /** Selecting twice in a row is selecting once by the conjunction. */
  lemma {:induction false} SelectSelect<T(!new)>(s: seq<T>, p: T -> bool, q: T -> bool)
    ensures Select(Select(s, p), q) == Select(s, Both(p, q))
    decreases |s|
  {
    if s != [] {
      var rest := Select(s[1..], p);
      var head := if p(s[0]) then [s[0]] else [];
      SelectAppend(head, rest, q);
      SelectSelect(s[1..], p, q);
      if p(s[0]) {
        assert head[1..] == [];
      }
    }
  }

  /** Selecting by the same predicate a second time changes nothing. */
  lemma SelectIdempotent<T(!new)>(s: seq<T>, p: T -> bool)
    ensures Select(Select(s, p), p) == Select(s, p)
  {
    SelectAll(Select(s, p), p);
  }
}
