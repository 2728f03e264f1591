/** Turning an uploaded survey table into roster members: column picking by
    substring, name title-casing, multi-value cells, integer coercion and the
    per-row member record.

    A table is a list of column labels plus rows; a row maps a column label
    to its cell. A cell is `None` when pandas reads it as missing (NaN) and
    otherwise holds the text Python's `str()` gives for the value. */
module Preprocess {
  import opened Common
  import opened Text
  import opened Roster

  // -----------------------------------------------------------------------
  // Names
  // -----------------------------------------------------------------------

  /** Every word capitalised. */
  function CapitalizeAll(ws: seq<string>): seq<string> {
    seq(|ws|, k requires 0 <= k < |ws| => Capitalize(ws[k]))
  }

  /** `_title_case_name`: the words of the stripped name, each capitalised,
      joined by single spaces. */
  function TitleCaseName(name: string): string {
    Join(CapitalizeAll(Words(Strip(name))), " ")
  }

  /** No whitespace at either end, whitespace only as single spaces. */
  predicate WellSpaced(s: string) {
    && (s == [] || (!IsSpace(s[0]) && !IsSpace(s[|s| - 1])))
    && (forall i :: 0 <= i < |s| && IsSpace(s[i]) ==> s[i] == ' ')
    && (forall i :: 0 <= i < |s| - 1 && IsSpace(s[i]) ==> !IsSpace(s[i + 1]))
  }

  /** Words are non-empty and hold no whitespace. */
  predicate AreWords(ws: seq<string>) {
    forall k :: 0 <= k < |ws| ==> ws[k] != [] && FreeOf(ws[k], Whitespace)
  }

  lemma CapitalizedWords(ws: seq<string>)
    requires AreWords(ws)
    ensures AreWords(CapitalizeAll(ws))
  {
    forall k | 0 <= k < |ws|
      ensures FreeOf(CapitalizeAll(ws)[k], Whitespace)
    {
      assert forall i :: 0 <= i < |ws[k]| ==> (IsSpace(Capitalize(ws[k])[i]) <==> IsSpace(ws[k][i]));
    }
  }

  lemma {:induction false} JoinWellSpaced(ws: seq<string>)
    requires AreWords(ws)
    ensures WellSpaced(Join(ws, " "))
  {
    if |ws| > 1 {
      JoinWellSpaced(ws[1..]);
      var head, rest := ws[0], Join(ws[1..], " ");
      var s := head + " " + rest;
      assert s == Join(ws, " ");
      assert rest != [] by {
        assert |Join(ws[1..], " ")| >= |ws[1]|;
      }
      forall i | 0 <= i < |s| - 1 && IsSpace(s[i])
        ensures !IsSpace(s[i + 1])
      {
        if i > |head| {
          assert s[i] == rest[i - |head| - 1] && s[i + 1] == rest[i - |head|];
        }
      }
    }
  }

  /** The title-cased name is well spaced. */
  lemma TitleCaseWellSpaced(name: string)
    ensures WellSpaced(TitleCaseName(name))
  {
    CapitalizedWords(Words(Strip(name)));
    JoinWellSpaced(CapitalizeAll(Words(Strip(name))));
  }

  /** The words of the title-cased name are the words of the name, each
      capitalised (first letter upper case, the rest lower case). */
  lemma TitleCaseWords(name: string)
    ensures Words(TitleCaseName(name)) == CapitalizeAll(Words(name))
  {
    WordsStrip(name);
    var cws := CapitalizeAll(Words(Strip(name)));
    CapitalizedWords(Words(Strip(name)));
    if cws == [] {
      assert Split("", Whitespace) == [""];
    } else {
      SplitJoin(cws, ' ', Whitespace);
      NonEmptyUnchanged(cws);
    }
  }

  lemma CapitalizeAllIdempotent(ws: seq<string>)
    ensures CapitalizeAll(CapitalizeAll(ws)) == CapitalizeAll(ws)
  {
    forall k | 0 <= k < |ws|
      ensures Capitalize(Capitalize(ws[k])) == Capitalize(ws[k])
    {
      CapitalizeIdempotent(ws[k]);
    }
  }

  /** Title-casing a title-cased name changes nothing. */
  lemma TitleCaseIdempotent(name: string)
    ensures TitleCaseName(TitleCaseName(name)) == TitleCaseName(name)
  {
    var r := TitleCaseName(name);
    var cws := CapitalizeAll(Words(name));
    assert r == Join(cws, " ") by {
      WordsStrip(name);
    }
    assert Strip(r) == r by {
      TitleCaseWellSpaced(name);
      StripUnchanged(r);
    }
    assert Words(r) == cws by {
      TitleCaseWords(name);
    }
    assert CapitalizeAll(cws) == cws by {
      CapitalizeAllIdempotent(Words(name));
    }
  }

  // -----------------------------------------------------------------------
  // Multi-value cells
  // -----------------------------------------------------------------------

  /** The characters a multi-value cell is split at. */
  const MultiSeparators: set<char> := {';', ',', '\n'}

  /** The pieces kept (non-empty and not blank), title-cased, in order. */
  function Cleaned(parts: seq<string>): (r: seq<string>)
    ensures |r| <= |parts|
  {
    if parts == [] then []
    else (if parts[0] != "" && Strip(parts[0]) != "" then [TitleCaseName(parts[0])] else []) + Cleaned(parts[1..])
  }

  /** The first occurrence of every value, in the order of first occurrence. */
  function Dedup(s: seq<string>): (d: seq<string>)
    ensures forall x :: x in d <==> x in s
  {
    if s == [] then []
    else
      var kept := Dedup(s[..|s| - 1]);
      assert forall x :: x in s <==> x in s[..|s| - 1] || x == s[|s| - 1];
      if s[|s| - 1] in kept then kept else kept + [s[|s| - 1]]
  }

  /** One more value is kept exactly when it is new. */
  lemma DedupStep(s: seq<string>, c: string)
    ensures Dedup(s + [c]) == if c in Dedup(s) then Dedup(s) else Dedup(s) + [c]
  {
    assert (s + [c])[..|s|] == s;
  }

  lemma DedupNext(s: seq<string>, i: nat)
    requires i < |s|
    ensures Dedup(s[..i + 1]) == if s[i] in Dedup(s[..i]) then Dedup(s[..i]) else Dedup(s[..i]) + [s[i]]
  {
    assert s[..i + 1] == s[..i] + [s[i]];
    DedupStep(s[..i], s[i]);
  }

  /** The position of the first occurrence of `x` in `s`. */
  function FirstIndex(s: seq<string>, x: string): (i: nat)
    requires x in s
    ensures i < |s| && s[i] == x
    ensures forall j :: 0 <= j < i ==> s[j] != x
  {
    if s[0] == x then 0 else 1 + FirstIndex(s[1..], x)
  }

  lemma FirstIndexPrefix(s: seq<string>, y: string, x: string)
    requires x in s
    ensures FirstIndex(s + [y], x) == FirstIndex(s, x)
  {
    var i := FirstIndex(s, x);
    var t := s + [y];
    assert t[i] == x;
    assert forall j :: 0 <= j < i ==> t[j] != x;
    FirstIndexUnique(t, x, i);
  }

  lemma FirstIndexUnique(s: seq<string>, x: string, i: nat)
    requires i < |s| && s[i] == x && forall j :: 0 <= j < i ==> s[j] != x
    ensures FirstIndex(s, x) == i
  {
  }

  /** Nothing occurs twice after de-duplication. */
  lemma {:induction false} DedupNoDuplicates(s: seq<string>)
    ensures NoDuplicates(Dedup(s))
  {
    if s != [] {
      DedupNoDuplicates(s[..|s| - 1]);
    }
  }

  /** De-duplication keeps values in the order of their first occurrence. */
  lemma {:induction false} DedupOrder(s: seq<string>)
    ensures forall k1, k2 :: 0 <= k1 < k2 < |Dedup(s)| ==>
              FirstIndex(s, Dedup(s)[k1]) < FirstIndex(s, Dedup(s)[k2])
  {
    if s != [] {
      var n := |s| - 1;
      var prev, d := Dedup(s[..n]), Dedup(s);
      DedupOrder(s[..n]);
      assert s == s[..n] + [s[n]];
      forall k | 0 <= k < |prev|
        ensures FirstIndex(s, prev[k]) == FirstIndex(s[..n], prev[k])
      {
        FirstIndexPrefix(s[..n], s[n], prev[k]);
      }
      if s[n] !in prev {
        FirstIndexUnique(s, s[n], n);
      }
    }
  }

  /** `_split_multi`. `None` stands for a value that is not a string. */
  function MultiValues(value: Option<string>): seq<string> {
    match value
    case None => []
    case Some(text) => Dedup(Cleaned(Split(text, MultiSeparators)))
  }

  /** The de-duplication loop over the cleaned pieces, with its `seen` set. */
  method SplitMulti(value: Option<string>) returns (result: seq<string>)
    ensures result == MultiValues(value)
  {
    if value.None? {
      return [];
    }
    var cleaned := Cleaned(Split(value.value, MultiSeparators));
    var seen: set<string> := {};
    result := [];
    for i := 0 to |cleaned|
      invariant result == Dedup(cleaned[..i])
      invariant forall x :: x in seen <==> x in result
    {
      var c := cleaned[i];
      DedupNext(cleaned, i);
      if c !in seen {
        seen := seen + {c};
        result := result + [c];
      }
    }
    assert cleaned[..|cleaned|] == cleaned;
  }

  /** The values of a multi-value cell: no duplicates, exactly the kept
      pieces, each at the place of its first occurrence. */
  lemma MultiValuesMeans(text: string)
    ensures NoDuplicates(MultiValues(Some(text)))
    ensures forall x :: x in MultiValues(Some(text)) <==> x in Cleaned(Split(text, MultiSeparators))
    ensures forall k1, k2 :: 0 <= k1 < k2 < |MultiValues(Some(text))| ==>
              var c := Cleaned(Split(text, MultiSeparators));
              FirstIndex(c, MultiValues(Some(text))[k1]) < FirstIndex(c, MultiValues(Some(text))[k2])
  {
    var c := Cleaned(Split(text, MultiSeparators));
    DedupNoDuplicates(c);
    DedupOrder(c);
  }

  // -----------------------------------------------------------------------
  // Integers and ids
  // -----------------------------------------------------------------------

  /** `_coerce_int`: a missing cell gives the default, and so does text that
      `int()` rejects after stripping. */
  function CoerceInt(cell: Option<string>, default: Option<int>): Option<int> {
    if cell.None? then default
    else
      match ParseInt(Strip(cell.value))
      case None => default
      case Some(v) => Some(v)
  }

  /** The text of any integer coerces back to it. */
  lemma CoerceIntRoundTrip(n: int, default: Option<int>)
    ensures CoerceInt(Some(IntToString(n)), default) == Some(n)
  {
    var s := IntToString(n);
    assert s[0] == '-' || IsDigit(s[0]);
    assert IsDigit(s[|s| - 1]) by {
      if n < 0 {
        assert s[|s| - 1] == NatToString(-n)[|NatToString(-n)| - 1];
      }
    }
    StripUnchanged(s);
    ParseIntToString(n);
  }

  /** The characters of `s` that are lower-case ASCII letters or digits. */
  function KeepAlnum(s: string): (r: string)
    ensures |r| <= |s|
    ensures forall i :: 0 <= i < |r| ==> IsLower(r[i]) || IsDigit(r[i])
  {
    if s == [] then []
    else (if IsLower(s[0]) || IsDigit(s[0]) then [s[0]] else []) + KeepAlnum(s[1..])
  }

  /** The member id derived from a name: lower-cased, everything but ASCII
      letters and digits removed. */
  function MemberId(name: string): string {
    KeepAlnum(Lower(name))
  }

  /** Ids hold lower-case letters and digits only, and a name made of such
      characters is its own id. */
  lemma {:induction false} KeepAlnumFixed(s: string)
    requires forall i :: 0 <= i < |s| ==> IsLower(s[i]) || IsDigit(s[i])
    ensures KeepAlnum(s) == s
  {
    if s != [] {
      KeepAlnumFixed(s[1..]);
      assert [s[0]] + s[1..] == s;
    }
  }

  /** Deriving the id is idempotent. */
  lemma MemberIdIdempotent(name: string)
    ensures MemberId(MemberId(name)) == MemberId(name)
  {
    var id := MemberId(name);
    assert Lower(id) == id;
    KeepAlnumFixed(id);
  }

  // -----------------------------------------------------------------------
  // Columns
  // -----------------------------------------------------------------------

  /** The normalised name of a column label: lower-cased, then stripped. */
  function ColumnKey(heading: string): string {
    Strip(Lower(heading))
  }

  /** The normalised names of a list of labels. */
  function ColumnKeys(columns: seq<string>): (ks: seq<string>)
    ensures |ks| == |columns|
    ensures forall j :: 0 <= j < |columns| ==> ks[j] == ColumnKey(columns[j])
  {
    seq(|columns|, j requires 0 <= j < |columns| => ColumnKey(columns[j]))
  }

  /** The keys of an ordered dictionary held as a list of entries. */
  function Keys(cols: seq<(string, string)>): (ks: seq<string>)
    ensures |ks| == |cols|
    ensures forall e :: 0 <= e < |cols| ==> ks[e] == cols[e].0
  {
    seq(|cols|, e requires 0 <= e < |cols| => cols[e].0)
  }

  /** The entry with key `k`. */
  function KeyPos(cols: seq<(string, string)>, k: string): (e: Option<nat>)
    ensures e.Some? ==> e.value < |cols| && cols[e.value].0 == k
    ensures e.None? <==> k !in Keys(cols)
  {
    if cols == [] then None
    else if cols[0].0 == k then Some(0)
    else
      assert Keys(cols) == [cols[0].0] + Keys(cols[1..]);
      match KeyPos(cols[1..], k)
      case None => None
      case Some(e) => Some(e + 1)
  }

  /** The dictionary `{c.lower().strip(): c for c in columns}`: a key keeps
      the place of its first column, and its value is the last column with
      that key. */
  function NormalizeColumns(columns: seq<string>): seq<(string, string)> {
    if columns == [] then []
    else
      var n := |columns| - 1;
      var prev := NormalizeColumns(columns[..n]);
      var k := ColumnKey(columns[n]);
      match KeyPos(prev, k)
      case Some(e) => prev[e := (k, columns[n])]
      case None => prev + [(k, columns[n])]
  }

  /** The last label in `columns` whose key is `k`. */
  function LastWithKey(columns: seq<string>, k: string): Option<string> {
    if columns == [] then None
    else if ColumnKey(columns[|columns| - 1]) == k then Some(columns[|columns| - 1])
    else LastWithKey(columns[..|columns| - 1], k)
  }

  /** The keys are those of the labels, once each, in the order of first
      occurrence. */
  lemma {:induction false} NormalizeColumnsKeys(columns: seq<string>)
    ensures Keys(NormalizeColumns(columns)) == Dedup(ColumnKeys(columns))
  {
    if columns != [] {
      var n := |columns| - 1;
      var prev := NormalizeColumns(columns[..n]);
      var k := ColumnKey(columns[n]);
      NormalizeColumnsKeys(columns[..n]);
      ColumnKeysLast(columns);
      DedupStep(ColumnKeys(columns[..n]), k);
      match KeyPos(prev, k)
      case Some(e) =>
        KeysUpdate(prev, e, (k, columns[n]));
      case None =>
        KeysAppend(prev, (k, columns[n]));
    }
  }

  lemma ColumnKeysLast(columns: seq<string>)
    requires columns != []
    ensures ColumnKeys(columns) == ColumnKeys(columns[..|columns| - 1]) + [ColumnKey(columns[|columns| - 1])]
  {
  }

  lemma KeysUpdate(cols: seq<(string, string)>, e: nat, entry: (string, string))
    requires e < |cols| && cols[e].0 == entry.0
    ensures Keys(cols[e := entry]) == Keys(cols)
  {
  }

  lemma KeysAppend(cols: seq<(string, string)>, entry: (string, string))
    ensures Keys(cols + [entry]) == Keys(cols) + [entry.0]
  {
  }

  /** No key occurs twice. */
  lemma NormalizeColumnsUnique(columns: seq<string>)
    ensures forall e1, e2 :: 0 <= e1 < e2 < |NormalizeColumns(columns)| ==>
              NormalizeColumns(columns)[e1].0 != NormalizeColumns(columns)[e2].0
  {
    var cols := NormalizeColumns(columns);
    NormalizeColumnsKeys(columns);
    DedupNoDuplicates(ColumnKeys(columns));
    assert forall e :: 0 <= e < |cols| ==> Keys(cols)[e] == cols[e].0;
  }

  /** Each value is the last label with its key. */
  lemma {:induction false} NormalizeColumnsValues(columns: seq<string>)
    ensures forall e :: 0 <= e < |NormalizeColumns(columns)| ==>
              LastWithKey(columns, NormalizeColumns(columns)[e].0) == Some(NormalizeColumns(columns)[e].1)
  {
    if columns != [] {
      var n := |columns| - 1;
      var prev := NormalizeColumns(columns[..n]);
      var k := ColumnKey(columns[n]);
      var cols := NormalizeColumns(columns);
      NormalizeColumnsValues(columns[..n]);
      NormalizeColumnsUnique(columns[..n]);
      forall e | 0 <= e < |cols|
        ensures LastWithKey(columns, cols[e].0) == Some(cols[e].1)
      {
        if cols[e].0 == k {
          LastWithKeyHere(columns, k);
          KeyOnce(prev, k, e, columns[n]);
        } else {
          LastWithKeyEarlier(columns, cols[e].0);
          KeptEntry(prev, k, columns[n], e);
        }
      }
    }
  }

  lemma LastWithKeyHere(columns: seq<string>, k: string)
    requires columns != [] && ColumnKey(columns[|columns| - 1]) == k
    ensures LastWithKey(columns, k) == Some(columns[|columns| - 1])
  {
  }

  lemma LastWithKeyEarlier(columns: seq<string>, k: string)
    requires columns != [] && ColumnKey(columns[|columns| - 1]) != k
    ensures LastWithKey(columns, k) == LastWithKey(columns[..|columns| - 1], k)
  {
  }

  /** The entry for key `k` after adding a label with key `k` holds that
      label. */
  lemma KeyOnce(prev: seq<(string, string)>, k: string, e: nat, heading: string)
    requires forall e1, e2 :: 0 <= e1 < e2 < |prev| ==> prev[e1].0 != prev[e2].0
    requires var cols := match KeyPos(prev, k)
                         case Some(p) => prev[p := (k, heading)]
                         case None => prev + [(k, heading)];
             e < |cols| && cols[e].0 == k
    ensures var cols := match KeyPos(prev, k)
                        case Some(p) => prev[p := (k, heading)]
                        case None => prev + [(k, heading)];
            cols[e].1 == heading
  {
    match KeyPos(prev, k)
    case Some(p) =>
    case None =>
  }

  /** An entry whose key differs from the added one was already there. */
  lemma KeptEntry(prev: seq<(string, string)>, k: string, heading: string, e: nat)
    requires var cols := match KeyPos(prev, k)
                         case Some(p) => prev[p := (k, heading)]
                         case None => prev + [(k, heading)];
             e < |cols| && cols[e].0 != k
    ensures e < |prev|
    ensures var cols := match KeyPos(prev, k)
                        case Some(p) => prev[p := (k, heading)]
                        case None => prev + [(k, heading)];
            cols[e] == prev[e]
  {
  }

  /** The first entry whose key contains `cand` (Python's `cand in k`). */
  function FirstKeyWith(cols: seq<(string, string)>, cand: string): (e: Option<nat>)
    ensures e.Some? ==> e.value < |cols| && IsSubstring(cand, cols[e.value].0)
    ensures e.Some? ==> forall e' :: 0 <= e' < e.value ==> !IsSubstring(cand, cols[e'].0)
    ensures e.None? ==> forall e' :: 0 <= e' < |cols| ==> !IsSubstring(cand, cols[e'].0)
  {
    if cols == [] then None
    else if IsSubstring(cand, cols[0].0) then Some(0)
    else
      match FirstKeyWith(cols[1..], cand)
      case None => None
      case Some(e) => Some(e + 1)
  }

  /** `pick(*candidates)`: the value of the first entry containing the
      first candidate that some entry contains. */
  function Picked(cols: seq<(string, string)>, cands: seq<string>): Option<string> {
    if cands == [] then None
    else
      match FirstKeyWith(cols, cands[0])
      case Some(e) => Some(cols[e].1)
      case None => Picked(cols, cands[1..])
  }

  /** Nothing is picked exactly when no key contains any candidate. */
  lemma {:induction false} PickedNone(cols: seq<(string, string)>, cands: seq<string>)
    ensures Picked(cols, cands).None? <==>
              forall c, e :: 0 <= c < |cands| && 0 <= e < |cols| ==> !IsSubstring(cands[c], cols[e].0)
  {
    if cands != [] {
      PickedNone(cols, cands[1..]);
      assert forall c :: 1 <= c < |cands| ==> cands[c] == cands[1..][c - 1];
    }
  }

  /** Candidates are tried in order: a pick comes from the first candidate
      that some key contains, at the first key that contains it. */
  lemma {:induction false} PickedMeans(cols: seq<(string, string)>, cands: seq<string>)
    ensures Picked(cols, cands).Some? ==>
              exists c :: 0 <= c < |cands|
                && (forall c' :: 0 <= c' < c ==> FirstKeyWith(cols, cands[c']).None?)
                && FirstKeyWith(cols, cands[c]).Some?
                && Picked(cols, cands).value == cols[FirstKeyWith(cols, cands[c]).value].1
  {
    if cands != [] {
      if FirstKeyWith(cols, cands[0]).None? && Picked(cols, cands).Some? {
        PickedMeans(cols, cands[1..]);
        var c :| 0 <= c < |cands[1..]|
                && (forall c' :: 0 <= c' < c ==> FirstKeyWith(cols, cands[1..][c']).None?)
                && FirstKeyWith(cols, cands[1..][c]).Some?
                && Picked(cols, cands[1..]).value == cols[FirstKeyWith(cols, cands[1..][c]).value].1;
        assert FirstKeyWith(cols, cands[c + 1]).Some?;
      }
      if FirstKeyWith(cols, cands[0]).Some? {
        assert FirstKeyWith(cols, cands[0]).Some?;
      }
    }
  }

  /** The search loops of `pick`, returning at the first hit. */
  method Pick(cols: seq<(string, string)>, cands: seq<string>) returns (r: Option<string>)
    ensures r == Picked(cols, cands)
  {
    for c := 0 to |cands|
      invariant Picked(cols, cands) == Picked(cols, cands[c..])
    {
      for e := 0 to |cols|
        invariant forall e' :: 0 <= e' < e ==> !IsSubstring(cands[c], cols[e'].0)
      {
        if IsSubstring(cands[c], cols[e].0) {
          assert FirstKeyWith(cols, cands[c]) == Some(e);
          return Some(cols[e].1);
        }
      }
      assert cands[c..][1..] == cands[c + 1..];
    }
    return None;
  }

  /** The columns the row loop reads. `name` is always set (`"Name"` when
      nothing is picked); the others are `None` when nothing is picked. */
  datatype Columns = Columns(
    name: string,
    year: Option<string>,
    request: Option<string>,
    avoid: Option<string>,
    messiness: Option<string>,
    bother: Option<string>,
    sleep: Option<string>,
    temp: Option<string>,
    roomUse: Option<string>,
    enforce: Option<string>,
    rank2: Option<string>,
    rank3: Option<string>,
    rank4: Option<string>)

  /** `pick("name") or "Name"`: an empty label is falsy too. */
  function NameColumn(picked: Option<string>): string {
    if picked.Some? && picked.value != "" then picked.value else "Name"
  }

  /** Python truthiness of a picked column label. */
  predicate Present(col: Option<string>) {
    col.Some? && col.value != ""
  }

  /** The column choices, candidate lists in the order they are tried. */
  function ChooseColumns(cols: seq<(string, string)>): Columns {
    Columns(
      NameColumn(Picked(cols, ["name"])),
      Picked(cols, ["year"]),
      Picked(cols, ["roommate request", "roommate"]),
      Picked(cols, ["avoid", "dislike"]),
      Picked(cols, ["messiness"]),
      Picked(cols, ["bother"]),
      Picked(cols, ["sleep"]),
      Picked(cols, ["temp"]),
      Picked(cols, ["room use", "use"]),
      Picked(cols, ["wants preference enforced", "enforce"]),
      Picked(cols, ["2p rank", "rank 2"]),
      Picked(cols, ["3p rank", "rank 3"]),
      Picked(cols, ["4p rank", "rank 4"]))
  }

  method PickColumns(cols: seq<(string, string)>) returns (choice: Columns)
    ensures choice == ChooseColumns(cols)
  {
    var name := Pick(cols, ["name"]);
    var year := Pick(cols, ["year"]);
    var request := Pick(cols, ["roommate request", "roommate"]);
    var avoid := Pick(cols, ["avoid", "dislike"]);
    var messiness := Pick(cols, ["messiness"]);
    var bother := Pick(cols, ["bother"]);
    var sleep := Pick(cols, ["sleep"]);
    var temp := Pick(cols, ["temp"]);
    var roomUse := Pick(cols, ["room use", "use"]);
    var enforce := Pick(cols, ["wants preference enforced", "enforce"]);
    var rank2 := Pick(cols, ["2p rank", "rank 2"]);
    var rank3 := Pick(cols, ["3p rank", "rank 3"]);
    var rank4 := Pick(cols, ["4p rank", "rank 4"]);
    choice := Columns(NameColumn(name), year, request, avoid, messiness, bother, sleep, temp,
                      roomUse, enforce, rank2, rank3, rank4);
  }

  /** The name column is the first label whose key contains `name`, unless
      there is none or that label is empty: then it is `Name`. */
  lemma NameColumnMeans(cols: seq<(string, string)>)
    ensures FirstKeyWith(cols, "name").None? ==> ChooseColumns(cols).name == "Name"
    ensures FirstKeyWith(cols, "name").Some? ==>
              var heading := cols[FirstKeyWith(cols, "name").value].1;
              ChooseColumns(cols).name == if heading == "" then "Name" else heading
  {
    var cands := ["name"];
    assert cands[0] == "name" && cands[1..] == [];
    assert Picked(cols, cands) == match FirstKeyWith(cols, "name")
                                  case Some(e) => Some(cols[e].1)
                                  case None => Picked(cols, []);
  }

  // -----------------------------------------------------------------------
  // Rows
  // -----------------------------------------------------------------------

  /** A row: column label to cell; `None` is a missing (NaN) cell. */
  type Row = map<string, Option<string>>

  /** An uploaded table: its column labels in order, and its rows. */
  datatype Table = Table(columns: seq<string>, rows: seq<Row>)

  /** `str(row.get(col, ""))`: an absent column gives the empty text and a
      missing cell the text of NaN. */
  function CellText(row: Row, col: string): string {
    if col !in row then ""
    else if row[col].None? then "nan"
    else row[col].value
  }

  /** `row.get(col)` as `_coerce_int` sees it: absent and missing alike. */
  function CellValue(row: Row, col: string): Option<string> {
    if col in row then row[col] else None
  }

  /** A cell's text with surrounding whitespace removed. */
  function Trimmed(row: Row, col: string): string {
    Strip(CellText(row, col))
  }

  /** A rank column, coerced without a default. */
  function Rank(row: Row, col: Option<string>): Option<int> {
    if Present(col) then CoerceInt(CellValue(row, col.value), None) else None
  }

  /** The `rankedRoomSizes` dictionary, filled for sizes 2, 3 and 4 in turn. */
  function RankedSizes(r2: Option<int>, r3: Option<int>, r4: Option<int>): map<string, int> {
    var m0: map<string, int> := map[];
    var m2 := if r2.Some? then m0["2" := r2.value] else m0;
    var m3 := if r3.Some? then m2["3" := r3.value] else m2;
    if r4.Some? then m3["4" := r4.value] else m3
  }

  /** The values of the enforcement column read as true. */
  const EnforceWords: set<string> := {"yes", "true", "1"}

  /** Whether the enforcement cell reads as true. */
  predicate Enforced(row: Row, col: string) {
    Lower(Trimmed(row, col)) in EnforceWords
  }

  /** `_coerce_int(cell, default=3) or 3`: 0 also becomes 3. */
  function Messiness(cell: Option<string>): int {
    var v := CoerceInt(cell, Some(3)).GetOr(3);
    if v == 0 then 3 else v
  }

  /** The `attributes` dictionary: a key is written only when its column was
      picked. */
  function RowAttributes(choice: Columns, row: Row): Attributes {
    Attributes(
      if Present(choice.year) then Some(Trimmed(row, choice.year.value)) else None,
      if Present(choice.messiness) then Some(Messiness(CellValue(row, choice.messiness.value))) else None,
      if Present(choice.bother) then Some(Trimmed(row, choice.bother.value)) else None,
      if Present(choice.sleep) then Some(Title(Trimmed(row, choice.sleep.value))) else None,
      if Present(choice.temp) then Some(Title(Trimmed(row, choice.temp.value))) else None,
      if Present(choice.roomUse) then Some(Title(Trimmed(row, choice.roomUse.value))) else None,
      if Present(choice.enforce) then Some(Enforced(row, choice.enforce.value)) else None)
  }

  /** The member a row yields, or `None` when its stripped name is empty. */
  function RowMember(choice: Columns, row: Row): Option<Member> {
    var nameRaw := Strip(CellText(row, choice.name));
    if nameRaw == "" then None
    else
      var name := TitleCaseName(nameRaw);
      var attributes := RowAttributes(choice, row);
      Some(Member(
        MemberId(name),
        name,
        attributes.year,
        attributes,
        RankedSizes(Rank(row, choice.rank2), Rank(row, choice.rank3), Rank(row, choice.rank4)),
        if Present(choice.request) then MultiValues(Some(CellText(row, choice.request.value))) else [],
        if Present(choice.avoid) then MultiValues(Some(CellText(row, choice.avoid.value))) else []))
  }

  /** The `rankedRoomSizes` part of the row loop, from the three coerced
      ranks. */
  method FillRanks(r2: Option<int>, r3: Option<int>, r4: Option<int>) returns (ranked: map<string, int>)
    ensures ranked == RankedSizes(r2, r3, r4)
  {
    ranked := map[];
    if r2.Some? {
      ranked := ranked["2" := r2.value];
    }
    if r3.Some? {
      ranked := ranked["3" := r3.value];
    }
    if r4.Some? {
      ranked := ranked["4" := r4.value];
    }
  }

  /** The body of the row loop: the member record of one row. */
  method BuildMember(choice: Columns, row: Row) returns (m: Option<Member>)
    ensures m == RowMember(choice, row)
  {
    var nameRaw := Strip(CellText(row, choice.name));
    if nameRaw == "" {
      return None;
    }
    var name := TitleCaseName(nameRaw);
    var requested: seq<string> := [];
    if Present(choice.request) {
      requested := SplitMulti(Some(CellText(row, choice.request.value)));
    }
    var avoidWith: seq<string> := [];
    if Present(choice.avoid) {
      avoidWith := SplitMulti(Some(CellText(row, choice.avoid.value)));
    }
    var r2 := if Present(choice.rank2) then CoerceInt(CellValue(row, choice.rank2.value), None) else None;
    var r3 := if Present(choice.rank3) then CoerceInt(CellValue(row, choice.rank3.value), None) else None;
    var r4 := if Present(choice.rank4) then CoerceInt(CellValue(row, choice.rank4.value), None) else None;
    var ranked := FillRanks(r2, r3, r4);
    var attributes := RowAttributes(choice, row);
    m := Some(Member(MemberId(name), name, attributes.year, attributes, ranked, requested, avoidWith));
  }

  /** The outcome of every row, in row order. */
  function RowOutcomes(choice: Columns, rows: seq<Row>): (outs: seq<Option<Member>>)
    ensures |outs| == |rows|
    ensures forall i :: 0 <= i < |rows| ==> outs[i] == RowMember(choice, rows[i])
  {
    seq(|rows|, i requires 0 <= i < |rows| => RowMember(choice, rows[i]))
  }

  /** The members of the kept rows, in row order. */
  function Kept(outs: seq<Option<Member>>): seq<Member> {
    if outs == [] then []
    else
      var n := |outs| - 1;
      Kept(outs[..n]) + (if outs[n].Some? then [outs[n].value] else [])
  }

  lemma KeptNext(outs: seq<Option<Member>>, i: nat)
    requires i < |outs|
    ensures Kept(outs[..i + 1]) == Kept(outs[..i]) + (if outs[i].Some? then [outs[i].value] else [])
  {
    assert outs[..i + 1][..i] == outs[..i];
  }

  /** The roster holds exactly the members of the kept rows, at most one
      per row. */
  lemma {:induction false} KeptMeans(outs: seq<Option<Member>>)
    ensures |Kept(outs)| <= |outs|
    ensures forall m :: m in Kept(outs) <==> Some(m) in outs
  {
    if outs != [] {
      var n := |outs| - 1;
      KeptMeans(outs[..n]);
      assert outs == outs[..n] + [outs[n]];
    }
  }

  /** The row loop: one member per row with a non-blank name, in row
      order. */
  method BuildRoster(choice: Columns, rows: seq<Row>) returns (members: seq<Member>)
    ensures members == Kept(RowOutcomes(choice, rows))
  {
    ghost var outs := RowOutcomes(choice, rows);
    members := [];
    for i := 0 to |rows|
      invariant members == Kept(outs[..i])
    {
      KeptNext(outs, i);
      var m := BuildMember(choice, rows[i]);
      if m.Some? {
        members := members + [m.value];
      }
    }
    assert outs[..|outs|] == outs;
  }

  /** `preprocess_dataframe`: normalise the labels, pick the columns, then
      run the row loop. */
  method PreprocessDataframe(table: Table) returns (members: seq<Member>)
    ensures members == Kept(RowOutcomes(ChooseColumns(NormalizeColumns(table.columns)), table.rows))
  {
    var cols := NormalizeColumns(table.columns);
    var choice := PickColumns(cols);
    members := BuildRoster(choice, table.rows);
  }

  // -----------------------------------------------------------------------
  // Properties of the rows
  // -----------------------------------------------------------------------

  /** A text with a non-space character has at least one word. */
  lemma {:induction false} WordsNonBlank(s: string)
    requires HasNonSpace(s)
    ensures Words(s) != []
  {
    var parts := Split(s, Whitespace);
    if IsSpace(s[0]) {
      var rest := s[1..];
      assert HasNonSpace(rest) by {
        var i :| 0 <= i < |s| && !IsSpace(s[i]);
        assert rest[i - 1] == s[i];
      }
      WordsNonBlank(rest);
      assert parts == [""] + Split(rest, Whitespace);
      assert parts[1..] == Split(rest, Whitespace);
    } else {
      assert parts[0] != [];
    }
  }

  /** A name with a non-space character title-cases to a non-empty name. */
  lemma TitleCaseNonEmpty(name: string)
    requires HasNonSpace(name)
    ensures TitleCaseName(name) != ""
  {
    var stripped := Strip(name);
    StripEmptyIffBlank(name);
    assert HasNonSpace(stripped) by {
      assert !IsSpace(stripped[0]);
    }
    WordsNonBlank(stripped);
    var ws := CapitalizeAll(Words(stripped));
    assert |ws[0]| > 0;
    if |ws| > 1 {
      assert Join(ws, " ") == ws[0] + " " + Join(ws[1..], " ");
    }
  }

  /** A row is skipped exactly when its name cell is blank (an absent name
      column counts as blank, a missing cell reads as `nan`). */
  lemma RowKept(choice: Columns, row: Row)
    ensures RowMember(choice, row).Some? <==> HasNonSpace(CellText(row, choice.name))
  {
    StripEmptyIffBlank(CellText(row, choice.name));
  }

  /** What a kept row yields: a non-empty, well-spaced name, the id derived
      from it (lower-case letters and digits only), the year repeated from
      the attributes, and request and avoid lists without duplicates. */
  lemma RowMemberMeans(choice: Columns, row: Row)
    requires RowMember(choice, row).Some?
    ensures var m := RowMember(choice, row).value;
            && m.name != "" && WellSpaced(m.name)
            && m.name == TitleCaseName(CellText(row, choice.name))
            && m.id == MemberId(m.name)
            && (forall i :: 0 <= i < |m.id| ==> IsLower(m.id[i]) || IsDigit(m.id[i]))
            && m.year == m.attributes.year
            && NoDuplicates(m.requestedWith)
            && NoDuplicates(m.avoidWith)
  {
    var text := CellText(row, choice.name);
    RowKept(choice, row);
    var nameRaw := Strip(text);
    StripEmptyIffBlank(nameRaw);
    assert HasNonSpace(nameRaw) by {
      assert !IsSpace(nameRaw[0]);
    }
    TitleCaseNonEmpty(nameRaw);
    TitleCaseWellSpaced(nameRaw);
    assert TitleCaseName(nameRaw) == TitleCaseName(text) by {
      WordsStrip(text);
      WordsStrip(nameRaw);
    }
    if Present(choice.request) {
      MultiValuesMeans(CellText(row, choice.request.value));
    }
    if Present(choice.avoid) {
      MultiValuesMeans(CellText(row, choice.avoid.value));
    }
  }

  /** The ranked sizes hold only the keys `2`, `3` and `4`, each exactly
      when its rank was read, with that rank as value. */
  lemma RankedSizesMeans(r2: Option<int>, r3: Option<int>, r4: Option<int>)
    ensures var ranked := RankedSizes(r2, r3, r4);
            && ranked.Keys <= {"2", "3", "4"}
            && ("2" in ranked <==> r2.Some?) && ("2" in ranked ==> ranked["2"] == r2.value)
            && ("3" in ranked <==> r3.Some?) && ("3" in ranked ==> ranked["3"] == r3.value)
            && ("4" in ranked <==> r4.Some?) && ("4" in ranked ==> ranked["4"] == r4.value)
  {
    assert "2" != "3" && "2" != "4" && "3" != "4" by {
      assert "2"[0] != "3"[0] && "2"[0] != "4"[0] && "3"[0] != "4"[0];
    }
  }

  /** Messiness is never 0: a missing cell, text `int()` rejects and an
      explicit 0 all become the neutral 3; any other integer is kept. */
  lemma MessinessMeans(cell: Option<string>)
    ensures Messiness(cell) != 0
    ensures cell.None? ==> Messiness(cell) == 3
    ensures cell.Some? && ParseInt(Strip(cell.value)).None? ==> Messiness(cell) == 3
    ensures cell.Some? && ParseInt(Strip(cell.value)) == Some(0) ==> Messiness(cell) == 3
    ensures cell.Some? && ParseInt(Strip(cell.value)).Some? && ParseInt(Strip(cell.value)) != Some(0) ==>
              Some(Messiness(cell)) == ParseInt(Strip(cell.value))
  {
  }

  /** The text of an integer in a messiness cell is read back, unless it is 0. */
  lemma MessinessRoundTrip(n: int)
    ensures Messiness(Some(IntToString(n))) == if n == 0 then 3 else n
  {
    CoerceIntRoundTrip(n, Some(3));
  }

  /** A row's enforcement flag is written exactly when the column was
      picked, and reads true exactly for `yes`, `true` or `1` in any letter
      case, surrounded by any whitespace. */
  lemma EnforceMeans(choice: Columns, row: Row)
    requires RowMember(choice, row).Some?
    ensures var enforce := RowMember(choice, row).value.attributes.enforce;
            && (enforce.Some? <==> Present(choice.enforce))
            && (enforce == Some(true) <==>
                  Present(choice.enforce) && Lower(Strip(CellText(row, choice.enforce.value))) in {"yes", "true", "1"})
  {
    assert RowMember(choice, row).value.attributes == RowAttributes(choice, row);
  }

  /** Every member of the roster has a non-empty, well-spaced name and the
      id derived from it. */
  lemma RosterMembers(choice: Columns, rows: seq<Row>)
    ensures forall m :: m in Kept(RowOutcomes(choice, rows)) ==>
              m.name != "" && WellSpaced(m.name) && m.id == MemberId(m.name)
  {
    var outs := RowOutcomes(choice, rows);
    KeptMeans(outs);
    forall m | m in Kept(outs)
      ensures m.name != "" && WellSpaced(m.name) && m.id == MemberId(m.name)
    {
      var i :| 0 <= i < |outs| && outs[i] == Some(m);
      RowMemberMeans(choice, rows[i]);
    }
  }
}
