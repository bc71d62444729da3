/** Character classes and the string operations the parsers apply to cell text:
    hand-written matchers for the fixed patterns they search for, `trim`,
    `split(' ')`, `split(/(\n|\s\s)/)` and `replace(/\r/g, ' ')`. */
module Text {
  import opened Common

  /** `\d` in a JavaScript regular expression: an ASCII digit. */
  predicate IsDigit(c: char) { '0' <= c <= '9' }

  /** `\s` in a JavaScript regular expression, which is also the set of
      characters `String.prototype.trim` removes: white space and line terminators. */
  predicate IsSpace(c: char) {
    || c == ' ' || c == '\t' || c == '\n' || c == '\r' || c == '\U{B}' || c == '\U{C}'
    || c == '\U{A0}' || c == '\U{1680}' || ('\U{2000}' <= c <= '\U{200A}')
    || c == '\U{2028}' || c == '\U{2029}' || c == '\U{202F}' || c == '\U{205F}'
    || c == '\U{3000}' || c == '\U{FEFF}'
  }

  /** The characters `.` does not match in a JavaScript regular expression. */
  predicate IsLineTerminator(c: char) {
    c == '\n' || c == '\r' || c == '\U{2028}' || c == '\U{2029}'
  }

  /** The test of `filter((i) => i != '')`. */
  predicate IsFilled(cell: string) {
    cell != ""
  }

  /** The test of `findIndex((el) => el == '')`. */
  predicate IsBlank(cell: string) {
    cell == ""
  }

  // ----- fixed-shape patterns such as \d{2}-\d{2}-\d{2} -----

  /** `tpl` matches `s` at position `i`: every `#` of the template stands for
      one ASCII digit, every other character for itself. */
  predicate MatchesAt(s: string, i: nat, tpl: string) {
    && i + |tpl| <= |s|
    && forall k :: 0 <= k < |tpl| ==> if tpl[k] == '#' then IsDigit(s[i + k]) else s[i + k] == tpl[k]
  }

  /** The search finds a match that has none before it. */
  lemma FindTemplateFinds(s: string, tpl: string, p: nat)
    requires MatchesAt(s, p, tpl) && forall j :: 0 <= j < p ==> !MatchesAt(s, j, tpl)
    ensures FindTemplate(s, tpl) == Some(p)
  {
    var r := FindTemplate(s, tpl);
    assert r.Some?;
  }

  /** A template that starts with a digit does not match where there is none. */
  lemma NoMatchAtNonDigit(s: string, j: nat, tpl: string)
    requires j < |s| && !IsDigit(s[j]) && tpl != [] && tpl[0] == '#'
    ensures !MatchesAt(s, j, tpl)
  {
  }

  /** A match is kept when text is put in front of it. */
  lemma MatchesAfter(lead: string, t: string, tpl: string)
    requires MatchesAt(t, 0, tpl)
    ensures MatchesAt(lead + t, |lead|, tpl)
  {
    assert forall k :: 0 <= k < |tpl| ==> (lead + t)[|lead| + k] == t[k];
  }

  /** The leftmost position at or after `i` where `tpl` matches, as a regular
      expression search (`test`, or the first element of `match(/…/g)`) finds it. */
  function FindTemplateFrom(s: string, tpl: string, i: nat): (r: Option<nat>)
    requires i <= |s|
    ensures r.Some? ==> i <= r.value && MatchesAt(s, r.value, tpl)
    ensures r.Some? ==> forall j :: i <= j < r.value ==> !MatchesAt(s, j, tpl)
    ensures r.None? ==> forall j :: i <= j ==> !MatchesAt(s, j, tpl)
    decreases |s| - i
  {
    if MatchesAt(s, i, tpl) then Some(i)
    else if i == |s| then None
    else FindTemplateFrom(s, tpl, i + 1)
  }

  function FindTemplate(s: string, tpl: string): Option<nat> {
    FindTemplateFrom(s, tpl, 0)
  }

  /** `parseInt` of a run of decimal digits. */
  function NumberOf(digits: string): nat {
    if digits == [] then 0
    else
      var last := digits[|digits| - 1];
      NumberOf(digits[..|digits| - 1]) * 10 + (if IsDigit(last) then (last - '0') as nat else 0)
  }

  function Pow10(n: nat): (r: nat)
    ensures r > 0
  {
    if n == 0 then 1 else 10 * Pow10(n - 1)
  }

  /** `n` written in decimal with exactly `width` digits, zero-padded on the left
      (the last `width` digits where `n` has more). */
  function Digits(n: nat, width: nat): (r: string)
    ensures |r| == width && forall k :: 0 <= k < width ==> IsDigit(r[k])
  {
    if width == 0 then [] else Digits(n / 10, width - 1) + [('0' as int + n % 10) as char]
  }

  /** Reading back a number written with enough digits gives the number. */
  lemma {:induction false} NumberOfDigits(n: nat, width: nat)
    requires n < Pow10(width)
    ensures NumberOf(Digits(n, width)) == n
  {
    if width > 0 {
      var d := Digits(n, width);
      assert d[..width - 1] == Digits(n / 10, width - 1);
      NumberOfDigits(n / 10, width - 1);
    }
  }

  /** `sub` occurs somewhere in `s` (a regular expression of literal alternatives, via `test`). */
  predicate Contains(s: string, sub: string) {
    exists i | 0 <= i <= |s| - |sub| :: LiteralAt(s, i, sub)
  }

  /** `lit` occurs in `s` at position `i`. */
  predicate LiteralAt(s: string, i: int, lit: string) {
    0 <= i && i + |lit| <= |s| && s[i..i + |lit|] == lit
  }

  /** A character inside an occurrence is the matching character of the literal. */
  lemma CharOfLiteral(s: string, i: int, lit: string, k: int)
    requires LiteralAt(s, i, lit) && i <= k < i + |lit|
    ensures lit[k - i] == s[k]
  {
    assert s[i..i + |lit|][k - i] == s[k];
  }

  /** Text without spaces occurs in two pieces joined by a space only where it
      occurs in one of them. */
  lemma ContainsAcrossSpace(a: string, b: string, sub: string)
    requires ' ' !in sub
    ensures Contains(a + " " + b, sub) ==> Contains(a, sub) || Contains(b, sub)
  {
    var s := a + " " + b;
    if Contains(s, sub) {
      var i :| 0 <= i <= |s| - |sub| && LiteralAt(s, i, sub);
      if i + |sub| <= |a| {
        assert a[i..i + |sub|] == s[i..i + |sub|];
        assert LiteralAt(a, i, sub);
      } else if i > |a| {
        var j := i - |a| - 1;
        assert b[j..j + |sub|] == s[i..i + |sub|];
        assert LiteralAt(b, j, sub);
      } else {
        CharOfLiteral(s, i, sub, |a|);
        assert false;
      }
    }
  }

  // ----- split(' ')[0] -----

  /** `s.split(' ')[0]`: the text before the first space character. */
  function FirstToken(s: string): (r: string)
    ensures r <= s && ' ' !in r
    ensures |r| < |s| ==> s[|r|] == ' '
  {
    if s == [] || s[0] == ' ' then [] else [s[0]] + FirstToken(s[1..])
  }

  /** The first token of text followed by a space is that text. */
  lemma {:induction false} FirstTokenOf(a: string, rest: string)
    requires ' ' !in a
    ensures FirstToken(a + " " + rest) == a
  {
    if a != [] {
      assert (a + " " + rest)[1..] == a[1..] + " " + rest;
      FirstTokenOf(a[1..], rest);
    }
  }

  // ----- trim() -----

  /** `s.trimStart()`: drops the leading white space. */
  function TrimLeft(s: string): (r: string)
    ensures |r| <= |s| && r == s[|s| - |r|..]
    ensures r == [] || !IsSpace(r[0])
  {
    if s != [] && IsSpace(s[0]) then TrimLeft(s[1..]) else s
  }

  /** What `trimStart` drops is white space. */
  lemma {:induction false} TrimLeftDropsSpaces(s: string)
    ensures forall k :: 0 <= k < |s| - |TrimLeft(s)| ==> IsSpace(s[k])
  {
    if s != [] && IsSpace(s[0]) {
      TrimLeftDropsSpaces(s[1..]);
      assert forall k :: 1 <= k < |s| ==> s[k] == s[1..][k - 1];
    }
  }

  /** `s.trimEnd()`: drops the trailing white space. */
  function TrimRight(s: string): (r: string)
    ensures |r| <= |s| && r == s[..|r|]
    ensures r == [] || !IsSpace(r[|r| - 1])
  {
    if s != [] && IsSpace(s[|s| - 1]) then TrimRight(s[..|s| - 1]) else s
  }

  /** What `trimEnd` drops is white space. */
  lemma {:induction false} TrimRightDropsSpaces(s: string)
    ensures forall k :: |TrimRight(s)| <= k < |s| ==> IsSpace(s[k])
  {
    if s != [] && IsSpace(s[|s| - 1]) {
      TrimRightDropsSpaces(s[..|s| - 1]);
    }
  }

  /** `s.trim()`: never longer than `s`, and without white space at either end. */
  function Trim(s: string): (r: string)
    ensures |r| <= |s| && IsTrimmed(r)
  {
    var l := TrimLeft(s);
    var r := TrimRight(l);
    assert r != [] ==> r[0] == l[0];
    r
  }

  /** Neither end of `s` is white space. */
  predicate IsTrimmed(s: string) {
    s == [] || (!IsSpace(s[0]) && !IsSpace(s[|s| - 1]))
  }

  /** The result of `trim` is the stretch of the input that starts where
      `trimStart` stops. */
  lemma TrimSlice(s: string)
    ensures var i := |s| - |TrimLeft(s)|; i + |Trim(s)| <= |s| && s[i..i + |Trim(s)|] == Trim(s)
  {
    var l := TrimLeft(s);
    var r := TrimRight(l);
    var i := |s| - |l|;
    assert Trim(s) == r;
    assert r == s[i..][..|r|] by {
      assert l == s[i..];
      assert r == l[..|r|];
    }
    PrefixOfSuffix(s, i, |r|);
  }

  /** The result of `trim` is a stretch of the input with only white space
      cut off on either side, and has no white space at either end. */
  lemma TrimSpec(s: string)
    ensures IsTrimmed(Trim(s))
    ensures var i := |s| - |TrimLeft(s)|;
      && i + |Trim(s)| <= |s| && s[i..i + |Trim(s)|] == Trim(s)
      && (forall k :: 0 <= k < i ==> IsSpace(s[k]))
      && (forall k :: i + |Trim(s)| <= k < |s| ==> IsSpace(s[k]))
  {
    TrimSlice(s);
    TrimLeftDropsSpaces(s);
    TrimTail(s);
  }

  /** What `trim` cuts off at the end is white space. */
  lemma TrimTail(s: string)
    ensures forall k :: |s| - |TrimLeft(s)| + |Trim(s)| <= k < |s| ==> IsSpace(s[k])
  {
    var l := TrimLeft(s);
    var r := TrimRight(l);
    var i := |s| - |l|;
    TrimRightDropsSpaces(l);
    forall k | i + |r| <= k < |s| ensures IsSpace(s[k]) {
      assert s[k] == l[k - i];
    }
  }

  /** Text that is all white space trims to nothing. */
  lemma TrimOfSpaces(s: string)
    requires forall k :: 0 <= k < |s| ==> IsSpace(s[k])
    ensures Trim(s) == ""
  {
  }

  /** Text without white space at either end is its own trim. */
  lemma TrimOfTrimmed(s: string)
    requires IsTrimmed(s)
    ensures Trim(s) == s
  {
  }

  // ----- split(/(\n|\s\s)/g) -----

  /** Length of the separator `\n|\s\s` that matches at `i` (0 for none); the
      alternation tries the newline first. */
  function SepLength(s: string, i: nat): nat
    requires i < |s|
  {
    if s[i] == '\n' then 1
    else if i + 1 < |s| && IsSpace(s[i]) && IsSpace(s[i + 1]) then 2
    else 0
  }

  /** The first separator position at or after `i`, or `|s|` if there is none. */
  function NextSep(s: string, i: nat): (p: nat)
    requires i <= |s|
    ensures i <= p <= |s|
    ensures forall j :: i <= j < p ==> SepLength(s, j) == 0
    ensures p < |s| ==> SepLength(s, p) > 0
    decreases |s| - i
  {
    if i == |s| || SepLength(s, i) > 0 then i else NextSep(s, i + 1)
  }

  /** A piece the separator regular expression consumed. */
  predicate IsSeparator(x: string) {
    x == "\n" || (|x| == 2 && IsSpace(x[0]) && IsSpace(x[1]))
  }

  /** A piece between separators: no line feed and no two white space characters in a row. */
  predicate NoBreaks(x: string) {
    forall k :: 0 <= k < |x| ==> x[k] != '\n' && (k + 1 < |x| ==> !(IsSpace(x[k]) && IsSpace(x[k + 1])))
  }

  /** `s[i..].split(/(\n|\s\s)/g)`: because the group captures, every separator
      found is kept in the result between the pieces it separates. */
  function SplitFrom(s: string, i: nat): seq<string>
    requires i <= |s|
    decreases |s| - i
  {
    var p := NextSep(s, i);
    if p == |s| then [s[i..]]
    else [s[i..p], s[p..p + SepLength(s, p)]] + SplitFrom(s, p + SepLength(s, p))
  }

  /** A stretch of `s` that no separator starts inside has no breaks. */
  lemma NoSeparatorNoBreaks(s: string, i: nat, p: nat)
    requires i <= p <= |s|
    requires forall j :: i <= j < p ==> SepLength(s, j) == 0
    ensures NoBreaks(s[i..p])
  {
    assert forall k :: 0 <= k < p - i ==> s[i..p][k] == s[i + k] && SepLength(s, i + k) == 0;
  }

  /** Splitting loses nothing: the pieces and separators, joined, give the input back. */
  lemma {:induction false} SplitFromConcat(s: string, i: nat)
    requires i <= |s|
    ensures Flatten(SplitFrom(s, i)) == s[i..]
    decreases |s| - i
  {
    var p := NextSep(s, i);
    if p < |s| {
      var q := p + SepLength(s, p);
      var rest := SplitFrom(s, q);
      assert SplitFrom(s, i) == [s[i..p]] + ([s[p..q]] + rest);
      SplitFromConcat(s, q);
      FlattenCons(s[p..q], rest);
      FlattenCons(s[i..p], [s[p..q]] + rest);
      SuffixInThree(s, i, p, q);
    } else {
      FlattenCons(s[i..], []);
    }
  }

  /** The pieces at even positions hold no break; those at odd positions are separators. */
  lemma {:induction false} SplitFromShape(s: string, i: nat)
    requires i <= |s|
    ensures |SplitFrom(s, i)| % 2 == 1
    ensures forall k :: 0 <= k < |SplitFrom(s, i)| && k % 2 == 0 ==> NoBreaks(SplitFrom(s, i)[k])
    ensures forall k :: 0 <= k < |SplitFrom(s, i)| && k % 2 == 1 ==> IsSeparator(SplitFrom(s, i)[k])
    decreases |s| - i
  {
    var p := NextSep(s, i);
    NoSeparatorNoBreaks(s, i, p);
    if p < |s| {
      var q := p + SepLength(s, p);
      SplitFromStep(s, i, p, q);
      SplitFromShape(s, q);
      SeparatorAt(s, p);
      AlternatesPrepend(s[i..p], s[p..q], SplitFrom(s, q), SplitFrom(s, i), NoBreaks, IsSeparator);
    } else {
      assert s[i..p] == s[i..];
      assert SplitFrom(s, i) == [s[i..p]];
    }
  }

  /** The separator found at `p` is a line feed or two white space characters. */
  lemma SeparatorAt(s: string, p: nat)
    requires p < |s| && SepLength(s, p) > 0
    ensures p + SepLength(s, p) <= |s| && IsSeparator(s[p..p + SepLength(s, p)])
  {
    var sep := s[p..p + SepLength(s, p)];
    if s[p] == '\n' {
      assert sep == [s[p]];
    } else {
      assert |sep| == 2 && sep[0] == s[p] && sep[1] == s[p + 1];
    }
  }

  /** `s.split(/(\n|\s\s)/g)`: pieces alternating with the separators between
      them, which joined give `s` back. */
  function Split(s: string): (r: seq<string>)
    ensures |r| % 2 == 1 && Flatten(r) == s
  {
    SplitFromShape(s, 0);
    SplitFromConcat(s, 0);
    assert s[0..] == s;
    SplitFrom(s, 0)
  }

  // ----- replace(/\r/g, ' ') -----

  /** `s.replace(/\r/g, ' ')`. */
  function ReplaceCarriageReturns(s: string): (r: string)
    ensures |r| == |s| && '\r' !in r
    ensures forall k :: 0 <= k < |s| && s[k] != '\r' ==> r[k] == s[k]
    ensures forall k :: 0 <= k < |s| && s[k] == '\r' ==> r[k] == ' '
  {
    if s == [] then [] else [if s[0] == '\r' then ' ' else s[0]] + ReplaceCarriageReturns(s[1..])
  }

  /** A stretch of text without breaks has none in any part of it. */
  lemma NoBreaksSlice(s: string, i: nat, j: nat)
    requires i <= j <= |s| && NoBreaks(s)
    ensures NoBreaks(s[i..j])
  {
    assert forall k :: 0 <= k < j - i ==> s[i..j][k] == s[i + k];
  }

  /** Trimming text without breaks leaves none. */
  lemma TrimKeepsNoBreaks(s: string)
    requires NoBreaks(s)
    ensures NoBreaks(Trim(s))
  {
    TrimSlice(s);
    var i := |s| - |TrimLeft(s)|;
    var j := i + |Trim(s)|;
    assert Trim(s) == s[i..j];
    NoBreaksSlice(s, i, j);
  }

  /** The first separator at or after `i` is at `p` when none starts between
      them and one starts at `p` (or `p` is the end). */
  lemma NextSepAt(s: string, i: nat, p: nat)
    requires i <= p <= |s|
    requires forall j :: i <= j < p ==> SepLength(s, j) == 0
    requires p < |s| ==> SepLength(s, p) > 0
    ensures NextSep(s, i) == p
  {
    var q := NextSep(s, i);
    assert q < |s| ==> SepLength(s, q) > 0;
  }

  /** A separator is recognised by looking forward only, so text in front
      does not change it. */
  lemma SepLengthShift(p: string, t: string, j: nat)
    requires j < |t|
    ensures SepLength(p + t, |p| + j) == SepLength(t, j)
  {
    assert (p + t)[|p| + j] == t[j];
    if j + 1 < |t| {
      assert (p + t)[|p| + j + 1] == t[j + 1];
    }
  }

  /** Text in front moves the next separator along by its length. */
  lemma NextSepShift(p: string, t: string, i: nat)
    requires i <= |t|
    ensures NextSep(p + t, |p| + i) == |p| + NextSep(t, i)
  {
    var q := NextSep(t, i);
    forall j | |p| + i <= j < |p| + q ensures SepLength(p + t, j) == 0 {
      SepLengthShift(p, t, j - |p|);
    }
    if q < |t| {
      SepLengthShift(p, t, q);
    }
    NextSepAt(p + t, |p| + i, |p| + q);
  }

  /** One step of the split: the piece up to the next separator, the
      separator, then the split of the rest. */
  lemma SplitFromStep(s: string, i: nat, q: nat, k: nat)
    requires i <= q < |s| && NextSep(s, i) == q && k == q + SepLength(s, q)
    ensures k <= |s| && SplitFrom(s, i) == [s[i..q], s[q..k]] + SplitFrom(s, k)
  {
  }

  /** One step of `SplitFromShift`: where the rest after a separator splits
      the same with text in front, so does the text from `i`. */
  lemma SplitFromShiftStep(p: string, t: string, i: nat, q: nat, k: nat)
    requires i <= q < |t| && NextSep(t, i) == q && k == q + SepLength(t, q)
    requires NextSep(p + t, |p| + i) == |p| + q
    requires k <= |t| && SplitFrom(p + t, |p| + k) == SplitFrom(t, k)
    ensures SplitFrom(p + t, |p| + i) == SplitFrom(t, i)
  {
    var s := p + t;
    var i', q', k' := |p| + i, |p| + q, |p| + k;
    SepLengthShift(p, t, q);
    SplitFromStep(t, i, q, k);
    SplitFromStep(s, i', q', k');
    ShiftSlice(p, t, i, q);
    ShiftSlice(p, t, q, k);
    var x := t[i..q];
    var y := t[q..k];
    assert SplitFrom(t, i) == [x, y] + SplitFrom(t, k);
    assert s[i'..q'] == x && s[q'..k'] == y;
    assert SplitFrom(s, i') == [x, y] + SplitFrom(t, k);
  }

  /** Text in front does not change how the rest splits. */
  lemma {:induction false} SplitFromShift(p: string, t: string, i: nat)
    requires i <= |t|
    ensures SplitFrom(p + t, |p| + i) == SplitFrom(t, i)
    decreases |t| - i
  {
    var q := NextSep(t, i);
    NextSepShift(p, t, i);
    if q == |t| {
      assert SplitFrom(t, i) == [t[i..]];
      assert (p + t)[|p| + i..] == t[i..];
    } else {
      var k := q + SepLength(t, q);
      SplitFromShift(p, t, k);
      SplitFromShiftStep(p, t, i, q, k);
    }
  }

  /** A piece without breaks whose last character is not white space, then a
      line feed or two spaces, then any text: the piece and the separator come
      first, and the text splits on its own. */
  lemma SplitAfterPiece(a: string, sep: string, b: string)
    requires NoBreaks(a) && (a == [] || !IsSpace(a[|a| - 1]))
    requires sep == "\n" || sep == "  "
    ensures Split(a + sep + b) == [a, sep] + Split(b)
  {
    SplitFromAfterPiece(a, sep, b);
  }

  lemma SplitFromAfterPiece(a: string, sep: string, b: string)
    requires NoBreaks(a) && (a == [] || !IsSpace(a[|a| - 1]))
    requires sep == "\n" || sep == "  "
    ensures SplitFrom(a + sep + b, 0) == [a, sep] + SplitFrom(b, 0)
  {
    var s := a + sep + b;
    var k := |a| + |sep|;
    assert k <= |s| && SplitFrom(s, 0) == [a, sep] + SplitFrom(s, k) by {
      FirstSepAfterPiece(a, sep, b);
      SplitFromStep(s, 0, |a|, k);
      PrefixPieces(a, sep, b);
    }
    assert SplitFrom(s, k) == SplitFrom(b, 0) by {
      SplitFromShift(a + sep, b, 0);
    }
  }

  /** The first two stretches of `a + sep + b` are `a` and `sep`. */
  lemma PrefixPieces(a: string, sep: string, b: string)
    ensures (a + sep + b)[0..|a|] == a && (a + sep + b)[|a|..|a| + |sep|] == sep
  {
    assert a + sep + b == a + (sep + b);
  }

  /** The first separator after such a piece is the one that follows it. */
  lemma FirstSepAfterPiece(a: string, sep: string, b: string)
    requires NoBreaks(a) && (a == [] || !IsSpace(a[|a| - 1]))
    requires sep == "\n" || sep == "  "
    ensures NextSep(a + sep + b, 0) == |a| && SepLength(a + sep + b, |a|) == |sep|
  {
    var s := a + sep + b;
    forall j | 0 <= j < |a| ensures SepLength(s, j) == 0 {
      assert s[j] == a[j];
      if j + 1 < |a| {
        assert s[j + 1] == a[j + 1];
      } else {
        assert s[j + 1] == sep[0];
      }
    }
    assert s[|a|] == sep[0];
    assert |sep| == 2 ==> s[|a| + 1] == sep[1];
    NextSepAt(s, 0, |a|);
  }

  /** Text in front moves a stretch along by its length. */
  lemma ShiftSlice(p: string, t: string, i: nat, j: nat)
    requires i <= j <= |t|
    ensures (p + t)[|p| + i..|p| + j] == t[i..j]
  {
  }

  /** Text without breaks splits into itself alone. */
  lemma SplitOfNoBreaks(s: string)
    requires NoBreaks(s)
    ensures Split(s) == [s]
  {
    assert forall j :: 0 <= j < |s| ==> SepLength(s, j) == 0;
    assert NextSep(s, 0) == |s|;
  }
}
