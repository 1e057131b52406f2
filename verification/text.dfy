/** String primitives with the meaning the modelled Python code gives them:
    `str.strip`, `str.split(sep)`, `sep.join(parts)`, `str.replace` of one
    character, `str.lower`/`str.upper` (ASCII letters only), `str(int)` and
    `int(digits)`. */
module Text {

  /** Python's `str.isspace` for one character: the ASCII separators
      tab..carriage return, the information separators 0x1C-0x1F, space, and
      the Unicode space characters. */
  predicate IsSpace(c: char) {
    || c == ' '
    || ('\t' <= c <= '\r')
    || ('\U{1C}' <= c <= '\U{1F}')
    || c == '\U{85}' || c == '\U{A0}' || c == '\U{1680}'
    || ('\U{2000}' <= c <= '\U{200A}')
    || c == '\U{2028}' || c == '\U{2029}' || c == '\U{202F}'
    || c == '\U{205F}' || c == '\U{3000}'
  }

  /** True when every character is whitespace (including the empty string). */
  predicate IsBlank(s: string) {
    forall i :: 0 <= i < |s| ==> IsSpace(s[i])
  }

  /** Neither end of `s` is whitespace. */
  predicate Stripped(s: string) {
    s == "" || (!IsSpace(s[0]) && !IsSpace(s[|s| - 1]))
  }

  function LStrip(s: string): (r: string)
    ensures |r| <= |s| && r == s[|s| - |r|..]
    ensures r == "" || !IsSpace(r[0])
    ensures forall i :: 0 <= i < |s| - |r| ==> IsSpace(s[i])
    decreases |s|
  {
    if |s| > 0 && IsSpace(s[0]) then LStrip(s[1..]) else s
  }

  function RStrip(s: string): (r: string)
    ensures |r| <= |s| && r == s[..|r|]
    ensures r == "" || !IsSpace(r[|r| - 1])
    ensures forall i :: |r| <= i < |s| ==> IsSpace(s[i])
    decreases |s|
  {
    if |s| > 0 && IsSpace(s[|s| - 1]) then RStrip(s[..|s| - 1]) else s
  }

  /** Python's `s.strip()`: the longest infix of `s` with no whitespace at
      either end, obtained by dropping only whitespace. */
  function Strip(s: string): (r: string)
    ensures Stripped(r)
    ensures |r| <= |s|
    ensures r == "" <==> IsBlank(s)
  {
    StripBlank(s);
    RStrip(LStrip(s))
  }

  lemma StripBlank(s: string)
    ensures RStrip(LStrip(s)) == "" <==> IsBlank(s)
  {
    var l := LStrip(s);
    if RStrip(l) == "" {
      assert IsBlank(l);
      assert l == "";
    } else {
      assert !IsSpace(s[|s| - |l|]);
    }
  }

  /** Stripping never introduces a character. */
  lemma StripKeepsOut(s: string, c: char)
    requires c !in s
    ensures c !in Strip(s)
  {
    var l := LStrip(s);
    assert c !in l;
  }

  lemma StripOfStripped(s: string)
    requires Stripped(s)
    ensures Strip(s) == s
  {
  }

  /** Two texts without surrounding whitespace, joined by any separator,
      strip to themselves. */
  lemma JoinStripped(x: string, sep: string, y: string)
    requires x != "" && Stripped(x) && y != "" && Stripped(y)
    ensures Strip(x + sep + y) == x + sep + y
  {
    var s := x + sep + y;
    assert s[0] == x[0] && s[|s| - 1] == y[|y| - 1];
    StripOfStripped(s);
  }

  /** Leading whitespace never changes the stripped text. */
  lemma StripLeadingSpace(c: char, s: string)
    requires IsSpace(c)
    ensures Strip([c] + s) == Strip(s)
  {
    assert ([c] + s)[1..] == s;
  }

  /** The position of the first occurrence of `c`. */
  function IndexOf(s: string, c: char): (i: nat)
    requires c in s
    ensures i < |s| && s[i] == c && c !in s[..i]
  {
    if s[0] == c then 0 else 1 + IndexOf(s[1..], c)
  }

  lemma IndexOfUnique(s: string, c: char, i: nat)
    requires i < |s| && s[i] == c && c !in s[..i]
    ensures IndexOf(s, c) == i
  {
    if i > 0 {
      assert s[0] == s[..i][0];
      assert s[1..][..i - 1] == s[..i][1..];
      IndexOfUnique(s[1..], c, i - 1);
    }
  }

  /** Python's `sep.join(parts)`. */
  function JoinWith(parts: seq<string>, sep: string): string
  {
    if |parts| == 0 then ""
    else if |parts| == 1 then parts[0]
    else parts[0] + sep + JoinWith(parts[1..], sep)
  }

  /** Python's `s.split(c)`: at least one field, no field holds `c`, and
      joining the fields with `c` gives back `s`. */
  function Split(s: string, c: char): (r: seq<string>)
    ensures |r| >= 1
    ensures forall k :: 0 <= k < |r| ==> c !in r[k]
    ensures JoinWith(r, [c]) == s
    decreases |s|
  {
    if c !in s then [s]
    else
      var i := IndexOf(s, c);
      var rest := Split(s[i + 1..], c);
      assert s == s[..i] + [c] + s[i + 1..];
      assert ([s[..i]] + rest)[1..] == rest;
      [s[..i]] + rest
  }

  /** Splitting undoes joining, provided no part holds the separator. */
  lemma {:induction false} SplitOfJoin(ps: seq<string>, c: char)
    requires |ps| >= 1
    requires forall k :: 0 <= k < |ps| ==> c !in ps[k]
    ensures Split(JoinWith(ps, [c]), c) == ps
    decreases |ps|
  {
    if |ps| > 1 {
      var rest := JoinWith(ps[1..], [c]);
      assert JoinWith(ps, [c]) == ps[0] + [c] + rest;
      SplitAroundFirst(ps[0], c, rest);
      SplitOfJoin(ps[1..], c);
      HeadThenTail(Split(JoinWith(ps, [c]), c), Split(ps[0], c), Split(rest, c), ps);
    }
  }

  /** Splitting at the first occurrence of the separator. */
  lemma SplitAtFirst(s: string, c: char, i: nat)
    requires i < |s| && s[i] == c && c !in s[..i]
    ensures Split(s, c) == [s[..i]] + Split(s[i + 1..], c)
  {
    IndexOfUnique(s, c, i);
  }

  /** Splitting text made of two pieces around one separator splits each piece. */
  lemma {:induction false} SplitAround(x: string, c: char, y: string)
    ensures Split(x + [c] + y, c) == Split(x, c) + Split(y, c)
    decreases |x|
  {
    if c !in x {
      SplitAroundFirst(x, c, y);
    } else {
      var i := IndexOf(x, c);
      SplitAround(x[i + 1..], c, y);
      SplitAroundLater(x, c, y, i);
    }
  }

  lemma SplitAroundFirst(x: string, c: char, y: string)
    requires c !in x
    ensures Split(x + [c] + y, c) == Split(x, c) + Split(y, c)
  {
    var s := x + [c] + y;
    assert s[|x|] == c && s[..|x|] == x && s[|x| + 1..] == y;
    SplitAtFirst(s, c, |x|);
  }

  /** Cutting `x + [c] + y` inside `x`. */
  lemma SlicesOfJoined(x: string, c: char, y: string, i: nat)
    requires i < |x|
    ensures (x + [c] + y)[..i] == x[..i]
    ensures (x + [c] + y)[i] == x[i]
    ensures (x + [c] + y)[i + 1..] == x[i + 1..] + [c] + y
  {
  }

  lemma SplitAroundLater(x: string, c: char, y: string, i: nat)
    requires i < |x| && x[i] == c && c !in x[..i]
    requires Split(x[i + 1..] + [c] + y, c) == Split(x[i + 1..], c) + Split(y, c)
    ensures Split(x + [c] + y, c) == Split(x, c) + Split(y, c)
  {
    var s := x + [c] + y;
    SlicesOfJoined(x, c, y, i);
    SplitAtFirst(s, c, i);
    SplitAtFirst(x, c, i);
    ConsThenAppend(Split(s, c), Split(x, c), x[..i], Split(s[i + 1..], c), Split(x[i + 1..], c), Split(y, c));
  }

  // ---------------------------------------------------------------------
  // Sequence identities, stated generically so that the proofs using them
  // need not reason about the functions around them

  lemma TailOfAppend<T>(a: seq<T>, b: seq<T>)
    requires |a| >= 1
    ensures (a + b)[0] == a[0] && (a + b)[1..] == a[1..] + b
  {
  }

  lemma ThenHeadTail<T>(w: seq<T>, a: seq<T>, b: seq<T>, x: T, c: seq<T>)
    requires w == a + b && b == [x] + c
    ensures w == a + [x] + c
  {
  }

  lemma HeadThenTail<T>(w: seq<T>, h: seq<T>, t: seq<T>, ps: seq<T>)
    requires |ps| >= 1 && w == h + t && h == [ps[0]] && t == ps[1..]
    ensures w == ps
  {
  }

  lemma InHeadOrTail<T>(x: T, s: seq<T>)
    requires s != []
    ensures x in s <==> x == s[0] || x in s[1..]
  {
    assert s == [s[0]] + s[1..];
  }

  lemma InitThenLast<T>(s: seq<T>)
    requires |s| >= 1
    ensures s[..|s| - 1] + [s[|s| - 1]] == s
  {
  }

  lemma AppendNothing<T>(a: seq<T>)
    ensures a + [] == a
  {
  }

  lemma AppendAssoc<T>(a: seq<T>, b: seq<T>, c: seq<T>)
    ensures a + (b + c) == (a + b) + c
  {
  }

  /** One more element of a prefix. */
  lemma PrefixStep<T>(s: seq<T>, i: nat)
    requires i < |s|
    ensures s[..i + 1][..i] == s[..i] && s[..i + 1][i] == s[i] && |s[..i + 1]| == i + 1
  {
  }

  lemma HeadOnTail<T>(x: seq<T>, t: seq<T>)
    requires |x| >= 1
    ensures [x[0]] + (x[1..] + t) == x + t
  {
  }

  lemma ConsThenAppend<T>(whole: seq<T>, left: seq<T>, h: T, tail: seq<T>, p: seq<T>, q: seq<T>)
    requires whole == [h] + tail && tail == p + q && left == [h] + p
    ensures whole == left + q
  {
  }

  function ReplaceChar(s: string, a: char, b: char): (r: string)
    ensures |r| == |s|
    ensures forall i :: 0 <= i < |s| ==> r[i] == (if s[i] == a then b else s[i])
  {
    seq(|s|, i requires 0 <= i < |s| => if s[i] == a then b else s[i])
  }

  /** `s` with every character of `cs` deleted, as chained `str.replace(x, "")`. */
  function RemoveChars(s: string, cs: set<char>): (r: string)
    ensures forall i :: 0 <= i < |r| ==> r[i] !in cs
    ensures |r| <= |s|
    ensures (forall i :: 0 <= i < |s| ==> s[i] !in cs) ==> r == s
  {
    if s == [] then []
    else if s[0] in cs then RemoveChars(s[1..], cs)
    else [s[0]] + RemoveChars(s[1..], cs)
  }

  predicate IsAsciiUpper(c: char) { 'A' <= c <= 'Z' }
  predicate IsAsciiLower(c: char) { 'a' <= c <= 'z' }
  predicate IsAsciiLetter(c: char) { IsAsciiUpper(c) || IsAsciiLower(c) }
  predicate IsDigit(c: char) { '0' <= c <= '9' }

  predicate AllDigits(s: string) {
    forall i :: 0 <= i < |s| ==> IsDigit(s[i])
  }

  predicate AllAsciiLetters(s: string) {
    forall i :: 0 <= i < |s| ==> IsAsciiLetter(s[i])
  }

  function LowerChar(c: char): char {
    if IsAsciiUpper(c) then (c as int - 'A' as int + 'a' as int) as char else c
  }

  function UpperChar(c: char): char {
    if IsAsciiLower(c) then (c as int - 'a' as int + 'A' as int) as char else c
  }

  function LowerAscii(s: string): (r: string)
    ensures |r| == |s|
    ensures forall i :: 0 <= i < |s| ==> r[i] == LowerChar(s[i])
  {
    if s == [] then [] else [LowerChar(s[0])] + LowerAscii(s[1..])
  }

  function UpperAscii(s: string): (r: string)
    ensures |r| == |s|
    ensures forall i :: 0 <= i < |s| ==> r[i] == UpperChar(s[i])
  {
    if s == [] then [] else [UpperChar(s[0])] + UpperAscii(s[1..])
  }

  /** Number of occurrences of `c` in `s` (Python's `s.count(c)` for one character). */
  function CountChar(s: string, c: char): nat
  {
    multiset(s)[c]
  }

  function DigitChar(d: nat): (c: char)
    requires d < 10
    ensures IsDigit(c)
  {
    ('0' as int + d) as char
  }

  function DigitValue(c: char): (d: nat)
    requires IsDigit(c)
    ensures d < 10
  {
    c as int - '0' as int
  }

  /** The value of a string of decimal digits, as Python's `int` reads it. */
  function ParseDigits(s: string): nat
    requires AllDigits(s)
  {
    if s == [] then 0 else ParseDigits(s[..|s| - 1]) * 10 + DigitValue(s[|s| - 1])
  }

  /** Python's `str(n)` for a non-negative integer: a non-empty string of
      digits without a superfluous leading zero that reads back as `n`. */
  function NatToString(n: nat): (r: string)
    ensures |r| >= 1 && AllDigits(r)
    ensures |r| > 1 ==> r[0] != '0'
    ensures ParseDigits(r) == n
    decreases n
  {
    if n < 10 then [DigitChar(n)]
    else
      var p := NatToString(n / 10);
      var r := p + [DigitChar(n % 10)];
      assert r[..|r| - 1] == p;
      r
  }

  /** Python's `str(i)` for any integer. */
  function IntToString(i: int): (r: string)
    ensures |r| >= 1
    ensures i >= 0 ==> r == NatToString(i)
    ensures i < 0 ==> r == "-" + NatToString(-i)
  {
    if i < 0 then "-" + NatToString(-i) else NatToString(i)
  }

  /** Distinct numbers print differently. */
  lemma NatToStringInjective(m: nat, n: nat)
    requires NatToString(m) == NatToString(n)
    ensures m == n
  {
  }
}
