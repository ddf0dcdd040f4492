/** Boolean-mask selection over a table of rows, as `df[mask]` and `df.dropna(subset=...)`
    do it: the rows whose mask entry is true survive, in their original order. */
module Masks {

  /** The rows of `s` that satisfy `p`, in order. */
  function Keep<T>(s: seq<T>, p: T -> bool): (r: seq<T>)
    ensures |r| <= |s|
    ensures forall x | x in r :: x in s && p(x)
  {
    if s == [] then []
    else Keep(s[..|s| - 1], p) + (if p(s[|s| - 1]) then [s[|s| - 1]] else [])
  }

  /** The positions of `s` whose row satisfies `p`, in increasing order. */
  function Positions<T>(s: seq<T>, p: T -> bool): (ix: seq<nat>)
    ensures forall j | 0 <= j < |ix| :: ix[j] < |s| && p(s[ix[j]])
    ensures forall j, k | 0 <= j < k < |ix| :: ix[j] < ix[k]
    ensures forall i | 0 <= i < |s| && p(s[i]) :: i in ix
  {
    if s == [] then []
    else Positions(s[..|s| - 1], p) + (if p(s[|s| - 1]) then [|s| - 1] else [])
  }

  /** `Keep` is exactly the rows at `Positions`: the mask keeps each row that satisfies
      `p`, drops every other one, and keeps the relative order. */
  lemma {:induction false} KeepSelects<T>(s: seq<T>, p: T -> bool)
    ensures |Keep(s, p)| == |Positions(s, p)|
    ensures forall j | 0 <= j < |Positions(s, p)| :: Keep(s, p)[j] == s[Positions(s, p)[j]]
  {
    if s != [] {
      var init, last := s[..|s| - 1], s[|s| - 1];
      KeepSelects(init, p);
      var k, ix := Keep(init, p), Positions(init, p);
      var tail := if p(last) then [last] else [];
      var tailIx := if p(last) then [|s| - 1] else [];
      assert Keep(s, p) == k + tail;
      assert Positions(s, p) == ix + tailIx;
      forall j | 0 <= j < |ix + tailIx| ensures (k + tail)[j] == s[(ix + tailIx)[j]] {
        if j < |ix| {
          assert (k + tail)[j] == k[j] == init[ix[j]];
          assert (ix + tailIx)[j] == ix[j];
        }
      }
    }
  }

  /** A row survives a mask exactly when it satisfies it: nothing else decides. */
  lemma {:induction false} KeepMembership<T>(s: seq<T>, p: T -> bool, x: T)
    ensures x in Keep(s, p) <==> x in s && p(x)
  {
    if s != [] {
      var init := s[..|s| - 1];
      KeepMembership(init, p, x);
      assert s == init + [s[|s| - 1]];
    }
  }

  lemma {:induction false} KeepConcat<T>(a: seq<T>, b: seq<T>, p: T -> bool)
    ensures Keep(a + b, p) == Keep(a, p) + Keep(b, p)
  {
    if b != [] {
      var init := b[..|b| - 1];
      KeepConcat(a, init, p);
      assert (a + b)[..|a + b| - 1] == a + init;
    } else {
      assert a + b == a;
    }
  }

  /** Two masks applied one after the other select what one mask of their
      conjunction selects. */
  lemma {:induction false} KeepKeep<T>(s: seq<T>, p: T -> bool, q: T -> bool, pq: T -> bool)
    requires forall x :: pq(x) == (p(x) && q(x))
    ensures Keep(Keep(s, p), q) == Keep(s, pq)
  {
    if s != [] {
      var init, last := s[..|s| - 1], s[|s| - 1];
      KeepKeep(init, p, q, pq);
      var tail := if p(last) then [last] else [];
      KeepConcat(Keep(init, p), tail, q);
    }
  }

  /** The order in which two masks are applied does not matter. */
  lemma MasksCommute<T>(s: seq<T>, p: T -> bool, q: T -> bool)
    ensures Keep(Keep(s, p), q) == Keep(Keep(s, q), p)
  {
    KeepKeep(s, p, q, x => p(x) && q(x));
    KeepKeep(s, q, p, x => p(x) && q(x));
  }

  /** Applying the same mask twice is applying it once. */
  lemma KeepIdempotent<T>(s: seq<T>, p: T -> bool)
    ensures Keep(Keep(s, p), p) == Keep(s, p)
  {
    KeepKeep(s, p, p, p);
  }

  /** A mask leaves the table unchanged exactly when every row satisfies it. */
  lemma {:induction false} KeepIsIdentity<T>(s: seq<T>, p: T -> bool)
    ensures Keep(s, p) == s <==> forall i | 0 <= i < |s| :: p(s[i])
  {
    if s != [] {
      var init, last := s[..|s| - 1], s[|s| - 1];
      KeepIsIdentity(init, p);
      if Keep(s, p) == s {
        assert p(last) by { assert last in Keep(s, p); }
        assert Keep(init, p) == init by {
          assert Keep(s, p) == Keep(init, p) + [last];
          assert Keep(s, p)[..|s| - 1] == Keep(init, p);
        }
      }
      if forall i | 0 <= i < |s| :: p(s[i]) {
        assert forall i | 0 <= i < |init| :: p(init[i]) by {
          forall i | 0 <= i < |init| ensures p(init[i]) { assert init[i] == s[i]; }
        }
        assert s == init + [last];
      }
    }
  }
}
