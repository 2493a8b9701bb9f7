/** Counting runs of one mark the way `str.count` does: from the left, never overlapping. */
module Fences {
  import opened Text

  const FENCE: string := "```"
  const BOLD: string := "**"

  /** `s.count(sub)`. */
  function Count(sub: string, s: string): nat
    requires sub != []
    decreases |s|
  {
    if |s| < |sub| then 0
    else if s[..|sub|] == sub then 1 + Count(sub, s[|sub|..])
    else Count(sub, s[1..])
  }

  function FencesIn(s: string): nat { Count(FENCE, s) }

  predicate Odd(n: nat) { n % 2 == 1 }

  lemma OddSum(a: nat, b: nat)
    ensures Odd(a + b) == (Odd(a) != Odd(b))
  {
  }

  lemma NoneIsEven()
    ensures !Odd(0)
  {
  }

  function Repeat(c: char, n: nat): (s: string)
    ensures |s| == n && forall i :: 0 <= i < n ==> s[i] == c
  {
    seq(n, i => c)
  }

  /** A reader of `s` a character at a time that has `pending` of the last mark seen unspent. */
  function Pending(c: char, n: nat, pending: nat, s: string): (k: nat)
    requires pending < n
    ensures k < n
    decreases |s|
  {
    if s == [] then pending
    else if s[0] != c then Pending(c, n, 0, s[1..])
    else if pending + 1 == n then Pending(c, n, 0, s[1..])
    else Pending(c, n, pending + 1, s[1..])
  }

  function Tally(c: char, n: nat, pending: nat, s: string): nat
    requires pending < n
    decreases |s|
  {
    if s == [] then 0
    else if s[0] != c then Tally(c, n, 0, s[1..])
    else if pending + 1 == n then 1 + Tally(c, n, 0, s[1..])
    else Tally(c, n, pending + 1, s[1..])
  }

  lemma {:induction false} CountSkips(c: char, n: nat, k: nat, s: string)
    requires k < n && s != [] && s[0] != c
    ensures Count(Repeat(c, n), Repeat(c, k) + s) == Count(Repeat(c, n), s[1..])
  {
    var sub, whole := Repeat(c, n), Repeat(c, k) + s;
    assert whole[k] != c;
    if n <= |whole| {
      assert whole[..n][k] != sub[k];
      if k == 0 {
        assert whole == s;
      } else {
        assert whole[1..] == Repeat(c, k - 1) + s;
        CountSkips(c, n, k - 1, s);
      }
    }
  }

  lemma {:induction false} CountIsTally(c: char, n: nat, pending: nat, s: string)
    requires pending < n
    ensures Count(Repeat(c, n), Repeat(c, pending) + s) == Tally(c, n, pending, s)
    decreases |s|
  {
    if s == [] {
    } else if s[0] != c {
      CountSkips(c, n, pending, s);
      CountIsTally(c, n, 0, s[1..]);
      assert Repeat(c, 0) + s[1..] == s[1..];
    } else {
      var whole := Repeat(c, pending) + s;
      if pending + 1 == n {
        assert whole[..n] == Repeat(c, n);
        assert whole[n..] == s[1..] == Repeat(c, 0) + s[1..];
        CountIsTally(c, n, 0, s[1..]);
      } else {
        assert whole == Repeat(c, pending + 1) + s[1..];
        CountIsTally(c, n, pending + 1, s[1..]);
      }
    }
  }

  lemma {:induction false} TallyAppend(c: char, n: nat, pending: nat, a: string, b: string)
    requires pending < n
    ensures Pending(c, n, pending, a + b) == Pending(c, n, Pending(c, n, pending, a), b)
    ensures Tally(c, n, pending, a + b)
         == Tally(c, n, pending, a) + Tally(c, n, Pending(c, n, pending, a), b)
    decreases |a|
  {
    if a == [] {
      assert a + b == b;
    } else {
      assert (a + b)[1..] == a[1..] + b;
      TallyAppend(c, n, if a[0] == c && pending + 1 < n then pending + 1 else 0, a[1..], b);
    }
  }

  /** Whether a run of `c` could reach across the seam between the two. */
  predicate Meet(c: char, a: string, b: string) {
    a != [] && b != [] && a[|a| - 1] == c && b[0] == c
  }

  lemma {:induction false} NothingPends(c: char, n: nat, pending: nat, a: string)
    requires pending < n && a != [] && a[|a| - 1] != c
    ensures Pending(c, n, pending, a) == 0
    decreases |a|
  {
    if |a| > 1 {
      NothingPends(c, n, if a[0] == c && pending + 1 < n then pending + 1 else 0, a[1..]);
    }
  }

  /** A count is the sum of the counts of its parts, unless a run of the mark lies across the seam. */
  lemma {:induction false} CountSeam(c: char, n: nat, a: string, b: string)
    requires n > 0 && !Meet(c, a, b)
    ensures Count(Repeat(c, n), a + b) == Count(Repeat(c, n), a) + Count(Repeat(c, n), b)
  {
    forall s ensures Repeat(c, 0) + s == s {}
    CountIsTally(c, n, 0, a + b);
    CountIsTally(c, n, 0, a);
    CountIsTally(c, n, 0, b);
    TallyAppend(c, n, 0, a, b);
    if a != [] && a[|a| - 1] != c {
      NothingPends(c, n, 0, a);
    }
  }

  lemma {:induction false} CountNone(c: char, n: nat, a: string)
    requires n > 0 && c !in a
    ensures Count(Repeat(c, n), a) == 0
  {
    if n <= |a| {
      assert a[..n][0] != Repeat(c, n)[0];
      CountNone(c, n, a[1..]);
    }
  }

  lemma FenceIsRun()
    ensures FENCE == Repeat('`', 3) && BOLD == Repeat('*', 2)
  {
  }

  lemma FenceSeam(a: string, b: string)
    requires !Meet('`', a, b)
    ensures FencesIn(a + b) == FencesIn(a) + FencesIn(b)
  {
    FenceIsRun();
    CountSeam('`', 3, a, b);
  }

  lemma FenceNone(a: string)
    requires '`' !in a
    ensures FencesIn(a) == 0
  {
    FenceIsRun();
    CountNone('`', 3, a);
  }

  /** Characters that are no backtick can be put in wherever they split no run of backticks. */
  lemma FenceInsert(a: string, between: string, b: string)
    requires !Meet('`', a, b) && '`' !in between
    ensures FencesIn(a + between + b) == FencesIn(a + b) == FencesIn(a) + FencesIn(b)
  {
    FenceSeam(a, between);
    FenceNone(between);
    FenceSeam(a, b);
    if between == [] {
      assert a + between == a;
    } else {
      assert (a + between)[|a + between| - 1] == between[|between| - 1];
      FenceSeam(a + between, b);
    }
  }
}
