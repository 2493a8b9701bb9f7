/** Strings the way Python's `str` methods read them, and the characters the two dialects name. */
module Text {

  datatype Option<+T> = None | Some(value: T)
  {
    function GetOr(default: T): T { if Some? then value else default }
  }

  const ZERO_WIDTH_SPACE: char := '\U{200B}'
  const ELLIPSIS: char := '\U{2026}'
  const VERTICAL_TAB: char := '\U{000B}'
  const FORM_FEED: char := '\U{000C}'

  /** The spaces both Python and JavaScript count beyond the ASCII ones. */
  predicate SharedSpace(c: char) {
    || c == ' ' || ('\t' <= c <= '\r')
    || c == '\U{00A0}' || c == '\U{1680}' || ('\U{2000}' <= c <= '\U{200A}')
    || c == '\U{2028}' || c == '\U{2029}' || c == '\U{202F}' || c == '\U{205F}' || c == '\U{3000}'
  }

  /** Python's `\s`. */
  predicate PythonSpace(c: char) {
    SharedSpace(c) || ('\U{001C}' <= c <= '\U{001F}') || c == '\U{0085}'
  }

  /** JavaScript's `\s`, which is what Discord's patterns mean by it. */
  predicate DiscordSpace(c: char) {
    SharedSpace(c) || c == '\U{FEFF}'
  }

  predicate Blank(c: char) { c == ' ' || c == '\t' }

  predicate Digit(c: char) { '0' <= c <= '9' }

  /** `int` of a run of digits. */
  function ValueOf(digits: string): nat
    requires forall i :: 0 <= i < |digits| ==> Digit(digits[i])
  {
    if digits == [] then 0
    else
      var last := digits[|digits| - 1];
      assert Digit(last);
      ValueOf(digits[..|digits| - 1]) * 10 + (last as int - '0' as int)
  }

  predicate Letter(c: char) { ('a' <= c <= 'z') || ('A' <= c <= 'Z') }

  predicate StartsAt(s: string, at: nat, prefix: string) {
    at + |prefix| <= |s| && s[at..at + |prefix|] == prefix
  }

  /** How many characters from `at` on satisfy `p`. */
  function RunOf(p: char -> bool, s: string, at: nat): (n: nat)
    requires at <= |s|
    ensures at + n <= |s|
    ensures forall i :: at <= i < at + n ==> p(s[i])
    ensures at + n < |s| ==> !p(s[at + n])
    decreases |s| - at
  {
    if at < |s| && p(s[at]) then 1 + RunOf(p, s, at + 1) else 0
  }

  /** A run is as long as what is known to be in it, up to what is known not to be. */
  lemma RunIs(p: char -> bool, s: string, at: nat, n: nat)
    requires at + n <= |s| && forall i :: at <= i < at + n ==> p(s[i])
    requires at + n < |s| ==> !p(s[at + n])
    ensures RunOf(p, s, at) == n
  {
    var run := RunOf(p, s, at);
    assert at + run == |s| || !p(s[at + run]);
  }

  /** `lstrip`. */
  function DropFront(p: char -> bool, s: string): (r: string)
    ensures |r| <= |s| && r == s[|s| - |r|..]
    ensures r != [] ==> !p(r[0])
    ensures forall i :: 0 <= i < |s| - |r| ==> p(s[i])
  {
    s[RunOf(p, s, 0)..]
  }

  /** `rstrip`. */
  function DropBack(p: char -> bool, s: string): (r: string)
    ensures |r| <= |s| && r == s[..|r|]
    ensures r != [] ==> !p(r[|r| - 1])
    ensures forall i :: |r| <= i < |s| ==> p(s[i])
  {
    if s != [] && p(s[|s| - 1]) then DropBack(p, s[..|s| - 1]) else s
  }

  function Strip(p: char -> bool, s: string): string {
    DropBack(p, DropFront(p, s))
  }

  /** A text as the space around it and what is inside. */
  predicate Stripped(p: char -> bool, s: string, from: nat, to: nat) {
    && from <= to <= |s|
    && (forall i :: 0 <= i < from ==> p(s[i])) && (forall i :: to <= i < |s| ==> p(s[i]))
    && (from < to ==> !p(s[from]) && !p(s[to - 1])) && (from == to ==> from == |s|)
  }

  lemma StripExactly(p: char -> bool, s: string, from: nat, to: nat)
    requires Stripped(p, s, from, to)
    ensures Strip(p, s) == s[from..to]
  {
    var front := DropFront(p, s);
    assert |s| - |front| == from;
    var back := DropBack(p, front);
    assert forall i :: 0 <= i < |back| ==> back[i] == front[i] == s[from + i];
    assert |back| == to - from;
  }

  /** `s.replace(c, "")`. */
  function Without(c: char, s: string): (r: string)
    ensures forall i :: 0 <= i < |r| ==> r[i] != c && r[i] in s
  {
    if s == [] then [] else (if s[0] == c then [] else [s[0]]) + Without(c, s[1..])
  }

  function CountOf(c: char, s: string): nat {
    if s == [] then 0 else (if s[0] == c then 1 else 0) + CountOf(c, s[1..])
  }

  /** `s.split("\n")`: one more piece than there are line breaks, and never none. */
  function Split(s: string): (lines: seq<string>)
    ensures |lines| == CountOf('\n', s) + 1
    ensures forall i :: 0 <= i < |lines| ==> '\n' !in lines[i]
  {
    if s == [] then [[]]
    else
      var rest := Split(s[1..]);
      if s[0] == '\n' then [[]] + rest else [[s[0]] + rest[0]] + rest[1..]
  }

  lemma SplitFirst(s: string)
    requires s != []
    ensures var rest := Split(s[1..]);
            Split(s) == if s[0] == '\n' then [[]] + rest else [[s[0]] + rest[0]] + rest[1..]
  {
  }

  lemma NoLines()
    ensures Split("") == [""]
  {
  }

  /** `"\n".join(lines)`. */
  function Join(lines: seq<string>): string {
    if lines == [] then []
    else if |lines| == 1 then lines[0]
    else lines[0] + "\n" + Join(lines[1..])
  }

  lemma {:induction false} JoinOfSplit(s: string)
    ensures Join(Split(s)) == s
  {
    if s != [] {
      JoinOfSplit(s[1..]);
      var rest := Split(s[1..]);
      if s[0] == '\n' {
        assert ([[]] + rest)[1..] == rest;
      } else {
        assert ([[s[0]] + rest[0]] + rest[1..])[1..] == rest[1..];
      }
    }
  }

  lemma {:induction false} SplitAtBreak(a: string, b: string)
    requires '\n' !in a
    ensures Split(a + "\n" + b) == [a] + Split(b)
  {
    var s := a + "\n" + b;
    if a == [] {
      assert s[1..] == b;
    } else {
      assert s[1..] == a[1..] + "\n" + b;
      SplitAtBreak(a[1..], b);
      assert ([a[1..]] + Split(b))[1..] == Split(b);
      assert [a[0]] + a[1..] == a;
    }
  }

  lemma {:induction false} SplitOneLine(a: string)
    requires '\n' !in a
    ensures Split(a) == [a]
  {
    if a != [] {
      SplitOneLine(a[1..]);
      assert [a[0]] + a[1..] == a;
    }
  }

  lemma {:induction false} SplitOfJoin(lines: seq<string>)
    requires forall i :: 0 <= i < |lines| ==> '\n' !in lines[i]
    ensures Split(Join(lines)) == if lines == [] then [[]] else lines
  {
    if |lines| == 1 {
      SplitOneLine(lines[0]);
    } else if |lines| > 1 {
      SplitOfJoin(lines[1..]);
      SplitAtBreak(lines[0], Join(lines[1..]));
    }
  }

  lemma {:induction false} CountOfAppend(c: char, a: string, b: string)
    ensures CountOf(c, a + b) == CountOf(c, a) + CountOf(c, b)
  {
    if a == [] {
      assert a + b == b;
    } else {
      CountOfAppend(c, a[1..], b);
      assert (a + b)[1..] == a[1..] + b;
    }
  }

  lemma {:induction false} CountOfNone(c: char, s: string)
    requires c !in s
    ensures CountOf(c, s) == 0
  {
    if s != [] {
      CountOfNone(c, s[1..]);
    }
  }

  lemma {:induction false} WithoutAppend(c: char, a: string, b: string)
    ensures Without(c, a + b) == Without(c, a) + Without(c, b)
  {
    if a == [] {
      assert a + b == b;
    } else {
      WithoutAppend(c, a[1..], b);
      assert (a + b)[0] == a[0] && (a + b)[1..] == a[1..] + b;
      var kept := if a[0] == c then [] else [a[0]];
      assert kept + (Without(c, a[1..]) + Without(c, b)) == kept + Without(c, a[1..]) + Without(c, b);
    }
  }

  lemma {:induction false} WithoutNone(c: char, s: string)
    requires c !in s
    ensures Without(c, s) == s
  {
    if s != [] {
      WithoutNone(c, s[1..]);
    }
  }

  /** Python and JavaScript differ on six characters: the four separators and the next line are space to
      Python alone, and the byte order mark to JavaScript alone. */
  lemma SpacesDiffer(c: char)
    ensures PythonSpace(c) && !DiscordSpace(c) <==> c as int == 0x85 || 0x1C <= c as int <= 0x1F
    ensures DiscordSpace(c) && !PythonSpace(c) <==> c as int == 0xFEFF
    ensures c as int < 128 ==> (DiscordSpace(c) <==> c == ' ' || 9 <= c as int <= 13)
  {
  }
}
