/** The text conventions the generators and the validator rely on:
    Java's decimal rendering of an `int` (what `StringBuilder.append(int)` writes),
    `Integer.parseInt`, `Pattern.compile(" ").split(line)`, and the line structure
    of a text whose lines each end with a line feed. */
module JavaText {

  datatype Option<T> = None | Some(value: T)

  const INT_MIN: int := -0x8000_0000
  const INT_MAX: int := 0x7fff_ffff

  /** The values of a Java `int`. */
  predicate IsInt(n: int) {
    INT_MIN <= n <= INT_MAX
  }

  predicate IsDigit(c: char) {
    '0' <= c <= '9'
  }

  predicate AllDigits(s: string) {
    forall i :: 0 <= i < |s| ==> IsDigit(s[i])
  }

  function DigitChar(d: int): (c: char)
    requires 0 <= d < 10
    ensures IsDigit(c)
  {
    (('0' as int) + d) as char
  }

  function DigitValue(c: char): (d: int)
    requires IsDigit(c)
    ensures 0 <= d < 10
  {
    c as int - '0' as int
  }

  // ---------------------------------------------------------------------------
  // Decimal rendering
  // ---------------------------------------------------------------------------

  /** The decimal digits of `n`, most significant first, without leading zeros. */
  function Digits(n: nat): (s: string)
    ensures |s| >= 1 && AllDigits(s)
    ensures s[0] == '0' <==> n == 0
  {
    if n < 10 then [DigitChar(n)] else Digits(n / 10) + [DigitChar(n % 10)]
  }

  /** Java's decimal text of an `int`: a minus sign for negative values, then the digits. */
  function Show(n: int): (s: string)
    ensures |s| >= 1 && ' ' !in s && '\n' !in s
  {
    if n < 0 then "-" + Digits(-n) else Digits(n)
  }

  // ---------------------------------------------------------------------------
  // Integer.parseInt
  // ---------------------------------------------------------------------------

  /** The number written by a run of decimal digits (leading zeros allowed; the empty
      run counts as 0, and `ParseInt` rejects it before asking). */
  function DigitsValue(s: string): nat
    requires AllDigits(s)
  {
    if s == [] then 0 else DigitsValue(s[..|s| - 1]) * 10 + DigitValue(s[|s| - 1])
  }

  /** `Integer.parseInt(s)`: an optional sign, at least one digit, and a value that fits an
      `int`; anything else is a `NumberFormatException`, modelled as `None`. */
  function ParseInt(s: string): (r: Option<int>)
    ensures r.Some? ==> IsInt(r.value)
    ensures r.Some? ==> |s| >= 1 && (s[0] == '-' || s[0] == '+' || IsDigit(s[0]))
  {
    if |s| == 0 then None
    else
      var body := if s[0] == '-' || s[0] == '+' then s[1..] else s;
      if |body| == 0 || !AllDigits(body) then None
      else
        var v: int := if s[0] == '-' then -(DigitsValue(body) as int) else DigitsValue(body);
        if IsInt(v) then Some(v) else None
  }

  lemma {:induction false} DigitsRoundTrip(n: nat)
    ensures DigitsValue(Digits(n)) == n
  {
    if n >= 10 {
      var s := Digits(n);
      assert s[..|s| - 1] == Digits(n / 10);
      DigitsRoundTrip(n / 10);
    }
  }

  /** Reading back what Java wrote gives the same `int`. */
  lemma ParseShowRoundTrip(n: int)
    requires IsInt(n)
    ensures ParseInt(Show(n)) == Some(n)
  {
    var s := Show(n);
    if n < 0 {
      var body := Digits(-n);
      assert s == "-" + body && s[1..] == body;
      DigitsRoundTrip(-n);
      assert DigitsValue(body) == -n;
    } else {
      DigitsRoundTrip(n);
      assert IsDigit(s[0]);
    }
  }

  // ---------------------------------------------------------------------------
  // Splitting on a separator character
  // ---------------------------------------------------------------------------

  /** Position of the first `c` in `s`, or `|s|` when there is none. */
  function IndexOf(s: string, c: char): (i: nat)
    ensures i <= |s| && (i < |s| ==> s[i] == c)
    ensures forall j :: 0 <= j < i ==> s[j] != c
  {
    if s == [] || s[0] == c then 0 else 1 + IndexOf(s[1..], c)
  }

  lemma IndexOfAfterPrefix(a: string, rest: string, c: char)
    requires c !in a && |rest| >= 1 && rest[0] == c
    ensures IndexOf(a + rest, c) == |a|
  {
    var s := a + rest;
    var i := IndexOf(s, c);
    assert s[|a|] == c;
  }

  /** The pieces of `s` between occurrences of `sep`, empty pieces included. */
  function Fields(s: string, sep: char): (fs: seq<string>)
    ensures |fs| >= 1
    decreases |s|
  {
    var i := IndexOf(s, sep);
    if i == |s| then [s] else [s[..i]] + Fields(s[i + 1..], sep)
  }

  /** The pieces put back together with `sep` between them. */
  function Intercalate(fs: seq<string>, sep: char): string
    requires |fs| >= 1
  {
    if |fs| == 1 then fs[0] else fs[0] + [sep] + Intercalate(fs[1..], sep)
  }

  /** Splitting on `sep` loses nothing: the pieces hold no separator and rejoin to `s`. */
  lemma {:induction false} FieldsRoundTrip(s: string, sep: char)
    ensures Intercalate(Fields(s, sep), sep) == s
    ensures forall k :: 0 <= k < |Fields(s, sep)| ==> sep !in Fields(s, sep)[k]
    decreases |s|
  {
    var i := IndexOf(s, sep);
    if i < |s| {
      var fs := Fields(s, sep);
      FieldsRoundTrip(s[i + 1..], sep);
      assert fs[1..] == Fields(s[i + 1..], sep);
      assert s == s[..i] + [sep] + s[i + 1..];
      forall k | 0 <= k < |fs| ensures sep !in fs[k] {
        if k > 0 {
          assert fs[k] == Fields(s[i + 1..], sep)[k - 1];
        }
      }
    }
  }

  function StripTrailingEmpty(fs: seq<string>): (r: seq<string>)
    ensures |r| <= |fs| && r == fs[..|r|]
    ensures r != [] ==> r[|r| - 1] != []
    ensures forall k :: |r| <= k < |fs| ==> fs[k] == []
  {
    if fs != [] && fs[|fs| - 1] == [] then StripTrailingEmpty(fs[..|fs| - 1]) else fs
  }

  /** `Pattern.split(s)` for a one-character pattern with limit 0: no match gives `[s]`
      (so the empty line gives one empty token); otherwise the pieces with the
      trailing empty ones removed (leading empty pieces are kept). */
  function JavaSplit(s: string, sep: char): seq<string>
  {
    if sep !in s then [s] else StripTrailingEmpty(Fields(s, sep))
  }

  /** Two non-empty separator-free words joined by one separator split back into the two words. */
  lemma SplitPair(a: string, b: string, sep: char)
    requires a != [] && b != [] && sep !in a && sep !in b
    ensures JavaSplit(a + [sep] + b, sep) == [a, b]
  {
    var s := a + [sep] + b;
    assert s[|a|] == sep;
    IndexOfAfterPrefix(a, [sep] + b, sep);
    assert s == a + ([sep] + b);
    assert s[..|a|] == a && s[|a| + 1..] == b;
    assert Fields(s, sep) == [a] + Fields(b, sep);
  }

  // ---------------------------------------------------------------------------
  // Lines
  // ---------------------------------------------------------------------------

  /** A text holding the given lines, each terminated by a line feed. */
  function JoinLines(ls: seq<string>): (t: string)
  {
    if ls == [] then [] else ls[0] + "\n" + JoinLines(ls[1..])
  }

  /** The lines a reader returns one by one, a line ending at each line feed;
      a last line without a terminator is still returned. */
  function SplitLines(t: string): seq<string>
    decreases |t|
  {
    if t == [] then []
    else
      var i := IndexOf(t, '\n');
      if i == |t| then [t] else [t[..i]] + SplitLines(t[i + 1..])
  }

  predicate NoLineFeeds(ls: seq<string>) {
    forall k :: 0 <= k < |ls| ==> '\n' !in ls[k]
  }

  /** Appending one line to the text appends it with its terminator. */
  lemma {:induction false} JoinLinesSnoc(ls: seq<string>, l: string)
    ensures JoinLines(ls + [l]) == JoinLines(ls) + l + "\n"
  {
    if ls != [] {
      assert (ls + [l])[1..] == ls[1..] + [l];
      JoinLinesSnoc(ls[1..], l);
    } else {
      assert (ls + [l])[1..] == [];
    }
  }

  /** A text of at least one line ends with a line feed. */
  lemma {:induction false} JoinLinesEndsWithLineFeed(ls: seq<string>)
    requires ls != []
    ensures var t := JoinLines(ls); |t| >= 1 && t[|t| - 1] == '\n'
  {
    if |ls| > 1 {
      JoinLinesEndsWithLineFeed(ls[1..]);
    }
  }

  /** Reading the written lines back yields exactly those lines. */
  lemma {:induction false} LinesRoundTrip(ls: seq<string>)
    requires NoLineFeeds(ls)
    ensures SplitLines(JoinLines(ls)) == ls
  {
    if ls != [] {
      var rest := JoinLines(ls[1..]);
      var t := ls[0] + "\n" + rest;
      IndexOfAfterPrefix(ls[0], "\n" + rest, '\n');
      assert t == ls[0] + ("\n" + rest);
      assert t[..|ls[0]|] == ls[0] && t[|ls[0]| + 1..] == rest;
      LinesRoundTrip(ls[1..]);
    }
  }
}
