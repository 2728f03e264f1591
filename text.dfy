/** ASCII text operations shared by the backend (Python `str` methods and
    the two regular expressions of the preprocessing step) and the frontend
    (template literals, `String.prototype.replace`, `startsWith`).

    Characters outside ASCII are carried through unchanged: case mapping
    and the whitespace class are the ASCII parts of Python's. */
module Text {
  import opened Common

  // ---------------------------------------------------------------------
  // Character classes and case mapping
  // ---------------------------------------------------------------------

  /** The ASCII characters Python's `str.isspace`, `str.strip()` and the
      regular-expression class `\s` treat as whitespace. */
  const Whitespace: set<char> :=
    {' ', '\t', '\n', '\r', '\U{B}', '\U{C}', '\U{1C}', '\U{1D}', '\U{1E}', '\U{1F}'}

  predicate IsSpace(c: char) { c in Whitespace }
  predicate IsDigit(c: char) { '0' <= c <= '9' }
  predicate IsUpper(c: char) { 'A' <= c <= 'Z' }
  predicate IsLower(c: char) { 'a' <= c <= 'z' }
  predicate IsAlpha(c: char) { IsUpper(c) || IsLower(c) }

  function ToLower(c: char): (r: char)
    ensures IsSpace(r) <==> IsSpace(c)
    ensures !IsUpper(r)
  {
    if IsUpper(c) then (c as int + 32) as char else c
  }

  function ToUpper(c: char): (r: char)
    ensures IsSpace(r) <==> IsSpace(c)
    ensures !IsLower(r)
  {
    if IsLower(c) then (c as int - 32) as char else c
  }

  /** Python's `str.lower()` on ASCII text. */
  function Lower(s: string): (r: string)
    ensures |r| == |s|
    ensures forall i :: 0 <= i < |s| ==> r[i] == ToLower(s[i])
  {
    seq(|s|, i requires 0 <= i < |s| => ToLower(s[i]))
  }

  /** Python's `str.capitalize()`: the first character upper-cased, the rest
      lower-cased. */
  function Capitalize(w: string): (r: string)
    ensures |r| == |w|
    ensures forall i :: 0 <= i < |w| ==> (IsSpace(r[i]) <==> IsSpace(w[i]))
  {
    if w == [] then [] else [ToUpper(w[0])] + Lower(w[1..])
  }

  lemma CapitalizeIdempotent(w: string)
    ensures Capitalize(Capitalize(w)) == Capitalize(w)
  {
  }

  /** Python's `str.title()`: a letter is upper-cased when the character
      before it is not a letter, and lower-cased otherwise. */
  function Title(s: string): (r: string)
    ensures |r| == |s|
  {
    TitleAfter(s, false)
  }

  function TitleAfter(s: string, afterLetter: bool): (r: string)
    ensures |r| == |s|
  {
    if s == [] then []
    else
      var c := if !IsAlpha(s[0]) then s[0] else if afterLetter then ToLower(s[0]) else ToUpper(s[0]);
      [c] + TitleAfter(s[1..], IsAlpha(s[0]))
  }

  // ---------------------------------------------------------------------
  // Stripping, searching, splitting and joining
  // ---------------------------------------------------------------------

  function LStrip(s: string): (r: string)
    ensures |r| <= |s| && r == s[|s| - |r|..]
    ensures r == [] || !IsSpace(r[0])
    ensures forall i :: 0 <= i < |s| - |r| ==> IsSpace(s[i])
  {
    if s != [] && IsSpace(s[0]) then LStrip(s[1..]) else s
  }

  function RStrip(s: string): (r: string)
    ensures |r| <= |s| && r == s[..|r|]
    ensures r == [] || !IsSpace(r[|r| - 1])
    ensures forall i :: |r| <= i < |s| ==> IsSpace(s[i])
  {
    if s != [] && IsSpace(s[|s| - 1]) then RStrip(s[..|s| - 1]) else s
  }

  /** Python's `str.strip()`. */
  function Strip(s: string): (r: string)
    ensures r == [] || (!IsSpace(r[0]) && !IsSpace(r[|r| - 1]))
    ensures |r| <= |s|
  {
    RStrip(LStrip(s))
  }

  lemma StripUnchanged(s: string)
    requires s == [] || (!IsSpace(s[0]) && !IsSpace(s[|s| - 1]))
    ensures Strip(s) == s
  {
  }

  predicate HasNonSpace(s: string) {
    exists i :: 0 <= i < |s| && !IsSpace(s[i])
  }

  lemma StripEmptyIffBlank(s: string)
    ensures Strip(s) == [] <==> !HasNonSpace(s)
  {
    var l := LStrip(s);
    if l != [] {
      assert !IsSpace(s[|s| - |l|]);
      assert RStrip(l) != [];
    }
  }

  /** JavaScript's `s.startsWith(p)`. */
  predicate StartsWith(s: string, p: string) {
    |p| <= |s| && s[..|p|] == p
  }

  /** `p` occurs in `s` starting at position `k`. */
  predicate OccursAt(s: string, p: string, k: int) {
    0 <= k && k + |p| <= |s| && s[k..k + |p|] == p
  }

  /** Python's `p in s` on strings: `p` occurs in `s` at some position. */
  predicate IsSubstring(p: string, s: string) {
    exists k :: 0 <= k <= |s| - |p| && OccursAt(s, p, k)
  }

  /** The first position at which `p` occurs in `s`. */
  function IndexOf(s: string, p: string): (r: Option<nat>)
    ensures r.Some? ==> OccursAt(s, p, r.value)
    ensures r.Some? ==> forall k :: 0 <= k < r.value ==> !OccursAt(s, p, k)
    ensures r.None? ==> forall k :: !OccursAt(s, p, k)
    decreases |s|
  {
    if |s| < |p| then None
    else if s[..|p|] == p then Some(0)
    else
      var r := IndexOf(s[1..], p);
      assert forall j :: 1 <= j ==> (OccursAt(s, p, j) <==> OccursAt(s[1..], p, j - 1));
      match r
      case None => None
      case Some(k) => Some(k + 1)
  }

  /** JavaScript's `s.replace(p, q)` with a string pattern: only the first
      occurrence of `p` is replaced. */
  function ReplaceFirst(s: string, p: string, q: string): string {
    match IndexOf(s, p)
    case None => s
    case Some(k) => s[..k] + q + s[k + |p|..]
  }

  lemma ReplacePrefix(p: string, rest: string)
    ensures ReplaceFirst(p + rest, p, "") == rest
  {
    assert (p + rest)[..|p|] == p;
  }

  /** Python's `re.split` on a class of single characters: the pieces between
      separators, including empty ones; there is always at least one. */
  function Split(s: string, seps: set<char>): (parts: seq<string>)
    ensures |parts| >= 1
    ensures forall k, i :: 0 <= k < |parts| && 0 <= i < |parts[k]| ==> parts[k][i] !in seps
  {
    if s == [] then [""]
    else
      var rest := Split(s[1..], seps);
      if s[0] in seps then [""] + rest else [[s[0]] + rest[0]] + rest[1..]
  }

  /** Python's `sep.join(parts)`. */
  function Join(parts: seq<string>, sep: string): string {
    if parts == [] then ""
    else if |parts| == 1 then parts[0]
    else parts[0] + sep + Join(parts[1..], sep)
  }

  predicate FreeOf(w: string, seps: set<char>) {
    forall i :: 0 <= i < |w| ==> w[i] !in seps
  }

  lemma {:induction false} SplitFree(w: string, seps: set<char>)
    requires FreeOf(w, seps)
    ensures Split(w, seps) == [w]
  {
    if w != [] {
      SplitFree(w[1..], seps);
      assert [w[0]] + w[1..] == w;
    }
  }

  lemma {:induction false} SplitAfterWord(a: string, c: char, b: string, seps: set<char>)
    requires FreeOf(a, seps) && c in seps
    ensures Split(a + [c] + b, seps) == [a] + Split(b, seps)
  {
    if a == [] {
      assert a + [c] + b == [c] + b;
      assert ([c] + b)[1..] == b;
    } else {
      SplitAfterWord(a[1..], c, b, seps);
      assert (a + [c] + b)[1..] == a[1..] + [c] + b;
      assert [a[0]] + a[1..] == a;
    }
  }

  /** Splitting a join undoes it, when no piece holds a separator. */
  lemma {:induction false} SplitJoin(ws: seq<string>, c: char, seps: set<char>)
    requires |ws| >= 1 && c in seps
    requires forall k :: 0 <= k < |ws| ==> FreeOf(ws[k], seps)
    ensures Split(Join(ws, [c]), seps) == ws
  {
    if |ws| == 1 {
      SplitFree(ws[0], seps);
    } else {
      SplitJoin(ws[1..], c, seps);
      SplitAfterWord(ws[0], c, Join(ws[1..], [c]), seps);
      assert ws[0] + [c] + Join(ws[1..], [c]) == Join(ws, [c]);
      assert [ws[0]] + ws[1..] == ws;
    }
  }

  /** Joining the pieces of a split with the one separator restores the text. */
  lemma {:induction false} JoinSplit(s: string, c: char)
    ensures Join(Split(s, {c}), [c]) == s
  {
    if s != [] {
      JoinSplit(s[1..], c);
      var rest := Split(s[1..], {c});
      if s[0] != c {
        if |rest| > 1 {
          assert Join(rest, [c]) == rest[0] + [c] + Join(rest[1..], [c]);
        }
      }
      assert [s[0]] + s[1..] == s;
    }
  }

  /** The pieces that are not empty, in order (the `if part` filter). */
  function NonEmpty(parts: seq<string>): (r: seq<string>)
    ensures |r| <= |parts|
    ensures forall k :: 0 <= k < |r| ==> r[k] != [] && r[k] in parts
  {
    if parts == [] then []
    else if parts[0] == [] then NonEmpty(parts[1..])
    else [parts[0]] + NonEmpty(parts[1..])
  }

  lemma {:induction false} NonEmptyUnchanged(parts: seq<string>)
    requires forall k :: 0 <= k < |parts| ==> parts[k] != []
    ensures NonEmpty(parts) == parts
  {
    if parts != [] {
      NonEmptyUnchanged(parts[1..]);
      assert [parts[0]] + parts[1..] == parts;
    }
  }

  /** The words of `s`: the non-empty pieces between runs of whitespace.
      (`re.split(r"\s+", s)` followed by dropping empty pieces yields the same
      words as splitting at every single whitespace character.) */
  function Words(s: string): (ws: seq<string>)
    ensures forall k :: 0 <= k < |ws| ==> ws[k] != [] && FreeOf(ws[k], Whitespace)
  {
    var ws := NonEmpty(Split(s, Whitespace));
    assert forall k :: 0 <= k < |ws| ==> ws[k] in Split(s, Whitespace);
    ws
  }

  lemma {:induction false} SplitTrailingSpace(s: string, c: char)
    requires c in Whitespace
    ensures Split(s + [c], Whitespace) == Split(s, Whitespace) + [""]
  {
    if s == [] {
      assert [c][1..] == [];
    } else {
      SplitTrailingSpace(s[1..], c);
      assert (s + [c])[1..] == s[1..] + [c];
    }
  }

  lemma NonEmptyAppendEmpty(parts: seq<string>)
    ensures NonEmpty(parts + [""]) == NonEmpty(parts)
  {
    if parts != [] {
      NonEmptyAppendEmpty(parts[1..]);
      assert (parts + [""])[1..] == parts[1..] + [""];
    }
  }

  lemma {:induction false} WordsLStrip(s: string)
    ensures Words(LStrip(s)) == Words(s)
  {
    if s != [] && IsSpace(s[0]) {
      WordsLStrip(s[1..]);
    }
  }

  lemma {:induction false} WordsRStrip(s: string)
    ensures Words(RStrip(s)) == Words(s)
  {
    if s != [] && IsSpace(s[|s| - 1]) {
      var t := s[..|s| - 1];
      WordsRStrip(t);
      assert s == t + [s[|s| - 1]];
      SplitTrailingSpace(t, s[|s| - 1]);
      NonEmptyAppendEmpty(Split(t, Whitespace));
    }
  }

  /** Stripping first does not change the words. */
  lemma WordsStrip(s: string)
    ensures Words(Strip(s)) == Words(s)
  {
    WordsRStrip(LStrip(s));
    WordsLStrip(s);
  }

  // ---------------------------------------------------------------------
  // Decimal numerals: Python's `str(n)` and `int(s)`, JavaScript's `${n}`
  // ---------------------------------------------------------------------

  function DigitChar(d: nat): (c: char)
    requires d < 10
    ensures IsDigit(c)
  {
    ('0' as int + d) as char
  }

  function DigitValue(c: char): (d: nat)
    requires IsDigit(c)
    ensures d < 10 && DigitChar(d) == c
  {
    c as int - '0' as int
  }

  /** The shortest decimal numeral of `n`. */
  function NatToString(n: nat): (s: string)
    ensures |s| >= 1
    ensures forall i :: 0 <= i < |s| ==> IsDigit(s[i])
    ensures |s| > 1 ==> s[0] != '0'
  {
    if n < 10 then [DigitChar(n)] else NatToString(n / 10) + [DigitChar(n % 10)]
  }

  /** Python's `str(n)` on an integer. */
  function IntToString(n: int): (s: string)
    ensures |s| >= 1
  {
    if n < 0 then "-" + NatToString(-n) else NatToString(n)
  }

  /** The body of a base-10 numeral as Python's `int()` accepts it: digits,
      with single underscores allowed between two digits. */
  predicate IsDigitGroup(s: string) {
    && |s| >= 1
    && IsDigit(s[0]) && IsDigit(s[|s| - 1])
    && forall i :: 0 <= i < |s| ==>
         IsDigit(s[i]) || (s[i] == '_' && 0 < i < |s| - 1 && IsDigit(s[i - 1]) && IsDigit(s[i + 1]))
  }

  /** The value of the digits of `s`, underscores skipped. */
  function GroupValue(s: string): nat {
    if s == [] then 0
    else if IsDigit(s[|s| - 1]) then 10 * GroupValue(s[..|s| - 1]) + DigitValue(s[|s| - 1])
    else GroupValue(s[..|s| - 1])
  }

  /** Python's `int(s)` on already stripped text: `None` where Python raises
      `ValueError`. */
  function ParseInt(s: string): (r: Option<int>)
    ensures r.Some? ==> |s| >= 1
  {
    if |s| >= 1 && (s[0] == '+' || s[0] == '-') then
      var body := s[1..];
      var magnitude: int := GroupValue(body);
      if IsDigitGroup(body) then Some(if s[0] == '-' then -magnitude else magnitude) else None
    else if IsDigitGroup(s) then Some(GroupValue(s))
    else None
  }

  lemma {:induction false} NatToStringValue(n: nat)
    ensures GroupValue(NatToString(n)) == n
  {
    if n >= 10 {
      NatToStringValue(n / 10);
      var s := NatToString(n);
      assert s[..|s| - 1] == NatToString(n / 10);
    }
  }

  lemma NatToStringIsGroup(n: nat)
    ensures IsDigitGroup(NatToString(n))
  {
    var s := NatToString(n);
    assert forall i :: 0 <= i < |s| ==> IsDigit(s[i]);
  }

  lemma ParseUnsigned(n: nat)
    ensures ParseInt(NatToString(n)) == Some(n)
  {
    NatToStringValue(n);
    NatToStringIsGroup(n);
    assert IsDigit(NatToString(n)[0]);
  }

  lemma ParseNegative(n: nat)
    requires n > 0
    ensures ParseInt("-" + NatToString(n)) == Some(-(n as int))
  {
    var s := "-" + NatToString(n);
    NatToStringValue(n);
    NatToStringIsGroup(n);
    assert s[1..] == NatToString(n);
  }

  /** Reading back what `str()` wrote gives the number again. */
  lemma ParseIntToString(n: int)
    ensures ParseInt(IntToString(n)) == Some(n)
  {
    if n < 0 {
      ParseNegative(-n);
    } else {
      ParseUnsigned(n);
    }
  }

  lemma NatToStringInjective(a: nat, b: nat)
    requires NatToString(a) == NatToString(b)
    ensures a == b
  {
    NatToStringValue(a);
    NatToStringValue(b);
  }
}
