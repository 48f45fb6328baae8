/** The per-row helpers of the two command-line scripts that turn the timetable CSV into
    schedule rows (backend/scripts/importScheduleMapped.js and
    backend/scripts/convertSchedule.js): header and text normalisation, the time range of
    the `Jam` column, the room key, the first lecturer of a `Dosen` cell, the token-overlap
    score and the lookups of course, lecturer and room ids. A parsed CSV row maps header
    names to cell texts; a column the row lacks reads as undefined. */
module CsvRow {
  import opened Js
  import opened Entities

  type CsvRecord = map<string, string>

  function Field(row: CsvRecord, column: string): Option<string> {
    if column in row then Some(row[column]) else None
  }

  /** A cell that is there and not empty, which is what a truthiness test on it accepts. */
  predicate Present(cell: Option<string>) {
    cell.Some? && cell.value != ""
  }

  /** `String(s ?? "")` for a cell. */
  function Text(cell: Option<string>): string {
    if cell.Some? then cell.value else ""
  }

  // ---------------------------------------------------------------- headers and text

  /** normalizeHeader: drop a leading byte-order mark, then trim. */
  function NormalizeHeader(header: string): string {
    Trim(if |header| > 0 && header[0] == '\U{FEFF}' then header[1..] else header)
  }

  /** The byte-order mark is itself white space to `trim`, so dropping it first changes
      nothing: the header comes out exactly as trimmed. */
  lemma NormalizeHeaderIsTrim(header: string)
    ensures NormalizeHeader(header) == Trim(header)
  {
    if |header| > 0 && header[0] == '\U{FEFF}' {
      TrimDropsLeadingWhite(header);
    }
  }

  /** `replace(/\s+/g, " ")`: every run of white space becomes one space. */
  function CollapseWhite(s: string): (r: string)
    ensures forall c :: c in r ==> c in s || c == ' '
    decreases |s|
  {
    if |s| == 0 then []
    else if IsWhite(s[0]) then
      var rest := TrimStart(s);
      TrimStartChars(s);
      " " + CollapseWhite(rest)
    else [s[0]] + CollapseWhite(s[1..])
  }

  lemma {:induction false} TrimStartChars(s: string)
    ensures forall c :: c in TrimStart(s) ==> c in s
  {
    if |s| > 0 && IsWhite(s[0]) {
      TrimStartChars(s[1..]);
      assert s == [s[0]] + s[1..];
    }
  }

  predicate IsPunct(c: char) {
    c == '(' || c == ')' || c == '.' || c == ','
  }

  /** norm: lower-case, collapse white space, drop `(`, `)`, `.` and `,`, trim. */
  function Norm(s: string): (r: string)
    ensures r == [] || (!IsWhite(r[0]) && !IsWhite(r[|r| - 1]))
  {
    Trim(Filter((c: char) => !IsPunct(c), CollapseWhite(ToLowerAscii(s))))
  }

  /** What norm promises of its result: no bracket, dot or comma, no upper-case ASCII
      letter, and no white space at either end. */
  lemma NormClean(s: string)
    ensures forall c :: c in Norm(s) ==> !IsPunct(c) && !IsUpperAscii(c)
    ensures Norm(s) == [] || (!IsWhite(Norm(s)[0]) && !IsWhite(Norm(s)[|Norm(s)| - 1]))
  {
    var lower := ToLowerAscii(s);
    var collapsed := CollapseWhite(lower);
    var kept := Filter((c: char) => !IsPunct(c), collapsed);
    assert forall c :: c in lower ==> !IsUpperAscii(c);
    assert forall c :: c in collapsed ==> !IsUpperAscii(c);
    assert forall c :: c in kept ==> !IsPunct(c) && !IsUpperAscii(c);
    TrimChars(kept);
  }

  // ---------------------------------------------------------------- time range

  datatype TimeRange = NoRange | Range(start: string, end: string)

  /** parseTimeRange / normTimeRange: split on `-` and trim the parts; with fewer than two
      parts there is no range, otherwise the first two parts with their first `.` turned
      into `:`. */
  function ParseTimeRange(jam: string): (t: TimeRange)
    ensures t.NoRange? <==> '-' !in jam
  {
    var parts := Split(jam, '-');
    if |parts| < 2 then NoRange
    else Range(ReplaceFirst(Trim(parts[0]), '.', ':'), ReplaceFirst(Trim(parts[1]), '.', ':'))
  }

  /** The start of a range is the trimmed text before the first `-`, with the first `.`
      turned into `:`, and neither end holds a `-`. */
  lemma TimeRangeParts(jam: string)
    requires '-' in jam
    ensures ParseTimeRange(jam).start == ReplaceFirst(Trim(jam[..IndexOf(jam, '-')]), '.', ':')
    ensures '-' !in ParseTimeRange(jam).start && '-' !in ParseTimeRange(jam).end
  {
    var parts := Split(jam, '-');
    SplitJoin(jam, '-');
    assert '-' !in parts[0] && '-' !in parts[1];
    TrimChars(parts[0]);
    TrimChars(parts[1]);
    ReplaceFirstChars(Trim(parts[0]), '.', ':');
    ReplaceFirstChars(Trim(parts[1]), '.', ':');
  }

  lemma ReplaceFirstChars(s: string, c: char, d: char)
    ensures forall x :: x in ReplaceFirst(s, c, d) ==> x in s || x == d
  {
    var r := ReplaceFirst(s, c, d);
    forall x | x in r
      ensures x in s || x == d
    {
      var j :| 0 <= j < |r| && r[j] == x;
      if c in s && j != IndexOf(s, c) {
        assert r[j] == s[j];
      } else if c !in s {
        assert r[j] == s[j];
      }
    }
  }

  /** The example of the source's comment. */
  lemma TimeRangeExample()
    ensures ParseTimeRange("07.30 - 08.20") == Range("07:30", "08:20")
  {
    ExampleParts();
    ExampleReplaced();
  }

  lemma ExampleParts()
    ensures ParseTimeRange("07.30 - 08.20") == Range(ReplaceFirst("07.30", '.', ':'), ReplaceFirst("08.20", '.', ':'))
  {
    SplitExample();
    TrimExample();
    RangeOfParts("07.30 - 08.20", "07.30 ", " 08.20", "07.30", "08.20");
  }

  lemma ExampleReplaced()
    ensures ReplaceFirst("07.30", '.', ':') == "07:30" && ReplaceFirst("08.20", '.', ':') == "08:20"
  {
    ReplaceExample("07", "30");
    ReplaceExample("08", "20");
    assert "07" + "." + "30" == "07.30" && "07" + ":" + "30" == "07:30";
    assert "08" + "." + "20" == "08.20" && "08" + ":" + "20" == "08:20";
  }

  lemma RangeOfParts(jam: string, p0: string, p1: string, t0: string, t1: string)
    requires Split(jam, '-') == [p0, p1] && Trim(p0) == t0 && Trim(p1) == t1
    ensures ParseTimeRange(jam) == Range(ReplaceFirst(t0, '.', ':'), ReplaceFirst(t1, '.', ':'))
  {
  }

  lemma ReplaceExample(a: string, b: string)
    requires '.' !in a
    ensures ReplaceFirst(a + "." + b, '.', ':') == a + ":" + b
  {
    IndexOfAt(a + "." + b, '.', |a|);
    assert (a + "." + b)[..|a|] == a;
    assert (a + "." + b)[|a| + 1..] == b;
  }

  lemma SplitExample()
    ensures Split("07.30 - 08.20", '-') == ["07.30 ", " 08.20"]
  {
    assert '-' !in "07.30 " && '-' !in " 08.20";
    SplitPair("07.30 ", " 08.20", '-');
    assert "07.30 " + ['-'] + " 08.20" == "07.30 - 08.20";
  }

  /** The index of the first occurrence is the position with the character and none
      before it. */
  lemma IndexOfAt(s: string, c: char, k: nat)
    requires k < |s| && s[k] == c && c !in s[..k]
    ensures IndexOf(s, c) == k
  {
    var i := IndexOf(s, c);
    assert forall j :: 0 <= j < k ==> s[j] != c by {
      forall j | 0 <= j < k
        ensures s[j] != c
      {
        assert s[..k][j] == s[j];
      }
    }
    assert forall j :: 0 <= j < i ==> s[j] != c by {
      forall j | 0 <= j < i
        ensures s[j] != c
      {
        assert s[..i][j] == s[j];
      }
    }
  }

  lemma TrimExample()
    ensures Trim("07.30 ") == "07.30" && Trim(" 08.20") == "08.20"
  {
    TrimOneSpace("07.30");
    TrimOneSpace("08.20");
    assert "07.30" + " " == "07.30 " && " " + "08.20" == " 08.20";
  }

  /** One space before or after a text without white space at its ends is trimmed away. */
  lemma TrimOneSpace(s: string)
    requires |s| > 0 && !IsWhite(s[0]) && !IsWhite(s[|s| - 1])
    ensures Trim(s + " ") == s && Trim(" " + s) == s
  {
    TrimOfUntrimmed(s);
    var t := s + " ";
    assert TrimStart(t) == t;
    assert t[..|t| - 1] == s;
    assert TrimEnd(t) == TrimEnd(s);
    var u := " " + s;
    TrimDropsLeadingWhite(u);
    assert u[1..] == s;
  }

  // ---------------------------------------------------------------- rooms

  /** `/^h\d{3}$/`: a lower-case h and three digits. */
  predicate IsHKey(k: string) {
    |k| == 4 && k[0] == 'h' && AllDigits(k[1..])
  }

  /** `/^h\d{3}$/i`: the same with either case of the letter. */
  predicate IsHKeyAnyCase(k: string) {
    |k| == 4 && (k[0] == 'h' || k[0] == 'H') && AllDigits(k[1..])
  }

  /** roomKey: none for an empty cell or `x`; digits become `h` and the digits padded to
      three; an `h###` code in either case is lower-cased; anything else is normalised. */
  function RoomKey(roomRaw: Option<string>): (k: Option<string>)
    ensures k.None? <==> (Trim(Text(roomRaw)) == "" || ToLowerAscii(Trim(Text(roomRaw))) == "x")
  {
    var r := Trim(Text(roomRaw));
    if r == "" || ToLowerAscii(r) == "x" then None
    else if AllDigits(r) then Some("h" + PadStart(r, 3, '0'))
    else if IsHKeyAnyCase(r) then Some(ToLowerAscii(r))
    else Some(Norm(r))
  }

  /** A room number `r` (the trimmed cell) gives `h` and the number padded to three
      digits: an `h###` key when it has one to three digits, not one when it is longer. */
  lemma RoomKeyOfNumber(roomRaw: Option<string>, r: string)
    requires r == Trim(Text(roomRaw)) && |r| > 0 && AllDigits(r)
    ensures RoomKey(roomRaw) == Some("h" + PadStart(r, 3, '0'))
    ensures |r| <= 3 ==> IsHKey("h" + PadStart(r, 3, '0'))
    ensures |r| > 3 ==> !IsHKey("h" + PadStart(r, 3, '0'))
  {
    DigitsNotX(r);
    if |r| <= 3 {
      PaddedRoomIsHKey(r);
    }
  }

  /** An `h###` code in either case gives its lower-case form, an `h###` key. */
  lemma RoomKeyOfCode(roomRaw: Option<string>, r: string)
    requires r == Trim(Text(roomRaw)) && IsHKeyAnyCase(r)
    ensures RoomKey(roomRaw) == Some(ToLowerAscii(r)) && IsHKey(ToLowerAscii(r))
  {
    HKeyLowered(r);
  }

  lemma DigitsNotX(r: string)
    requires |r| > 0 && AllDigits(r)
    ensures ToLowerAscii(r) != "x"
  {
    assert ToLowerAscii(r)[0] == LowerChar(r[0]);
  }

  lemma PaddedRoomIsHKey(r: string)
    requires 0 < |r| <= 3 && AllDigits(r)
    ensures IsHKey("h" + PadStart(r, 3, '0'))
  {
    var p := PadStart(r, 3, '0');
    assert p == Repeat('0', 3 - |r|) + r;
    assert forall i :: 0 <= i < 3 ==> IsDigit(p[i]) by {
      forall i | 0 <= i < 3
        ensures IsDigit(p[i])
      {
        if i >= 3 - |r| {
          assert p[i] == r[i - (3 - |r|)];
        }
      }
    }
    assert ("h" + p)[1..] == p;
  }

  /** An `h###` code in either case is not a number nor `x`, and lower-cases to `h###`. */
  lemma HKeyLowered(r: string)
    requires IsHKeyAnyCase(r)
    ensures !AllDigits(r) && ToLowerAscii(r) != "x" && IsHKey(ToLowerAscii(r))
  {
    assert !IsDigit(r[0]);
    var l := ToLowerAscii(r);
    assert forall i :: 0 <= i < 3 ==> l[1..][i] == r[1..][i] by {
      forall i | 0 <= i < 3
        ensures l[1..][i] == r[1..][i]
      {
        assert l[i + 1] == LowerChar(r[i + 1]);
        assert IsDigit(r[1..][i]);
      }
    }
    assert l[1..] == r[1..];
  }

  // ---------------------------------------------------------------- lecturer names

  /** firstLecturerName: of a cell naming two lecturers as `A/B`, the trimmed first. */
  function FirstLecturerName(dosenRaw: Option<string>): (name: string)
    ensures Trim(Text(dosenRaw)) == "" ==> name == ""
    ensures Trim(Text(dosenRaw)) != "" ==>
              name == Trim(var s := Trim(Text(dosenRaw)); if '/' in s then s[..IndexOf(s, '/')] else s)
  {
    var s := Trim(Text(dosenRaw));
    if s == "" then "" else Trim(Split(s, '/')[0])
  }

  /** The name holds no `/` and no white space at either end. */
  lemma FirstLecturerNameClean(dosenRaw: Option<string>)
    ensures '/' !in FirstLecturerName(dosenRaw)
    ensures var n := FirstLecturerName(dosenRaw); n == [] || (!IsWhite(n[0]) && !IsWhite(n[|n| - 1]))
  {
    var s := Trim(Text(dosenRaw));
    if s != "" {
      var part := Split(s, '/')[0];
      SplitJoin(s, '/');
      assert '/' !in part;
      TrimChars(part);
    }
  }

  // ---------------------------------------------------------------- token score

  /** `norm(s).split(" ").filter(Boolean)`: the words of the normalised text. */
  function Words(s: string): seq<string> {
    Filter((w: string) => w != "", Split(Norm(s), ' '))
  }

  function Elems(s: seq<string>): set<string> {
    set x | x in s
  }

  /** `new Set(words)` in the order a loop over it visits. */
  function TokenList(s: string): (t: seq<string>)
    ensures Distinct(t)
    ensures Elems(t) == Elems(Words(s))
  {
    var w := Words(s);
    DedupElems(w);
    Dedup(w)
  }

  lemma DedupElems(xs: seq<string>)
    ensures Distinct(Dedup(xs)) && Elems(Dedup(xs)) == Elems(xs)
  {
    DedupDistinct(xs);
  }

  function TokenSet(s: string): set<string> {
    Elems(Words(s))
  }

  function MaxNat(a: nat, b: nat): nat {
    if a >= b then a else b
  }

  /** The share of tokens two texts have in common, against the larger token set; 0 when
      either has no token. */
  function Score(ta: set<string>, tb: set<string>): real {
    if |ta| == 0 || |tb| == 0 then 0.0 else (|ta * tb| as real) / (MaxNat(|ta|, |tb|) as real)
  }

  lemma {:induction false} DistinctCard(s: seq<string>)
    requires Distinct(s)
    ensures |Elems(s)| == |s|
  {
    if |s| > 0 {
      var init := s[..|s| - 1];
      DistinctCard(init);
      assert s == init + [s[|s| - 1]];
      assert Elems(s) == Elems(init) + {s[|s| - 1]};
      assert forall j :: 0 <= j < |init| ==> init[j] == s[j];
      assert s[|s| - 1] !in Elems(init);
    }
  }

  lemma SubsetCard(a: set<string>, b: set<string>)
    requires a <= b
    ensures |a| <= |b|
  {
    assert b == a + (b - a);
  }

  /** The score lies between 0 and 1, does not depend on the order of its arguments, is 0
      for an empty token set and 1 for equal non-empty ones. */
  lemma ScoreProperties(ta: set<string>, tb: set<string>)
    ensures 0.0 <= Score(ta, tb) <= 1.0
    ensures Score(ta, tb) == Score(tb, ta)
    ensures (|ta| == 0 || |tb| == 0) ==> Score(ta, tb) == 0.0
    ensures ta == tb && |ta| > 0 ==> Score(ta, tb) == 1.0
  {
    assert ta * tb == tb * ta;
    SubsetCard(ta * tb, ta);
    if |ta| > 0 && |tb| > 0 {
      var m := MaxNat(|ta|, |tb|);
      assert |ta * tb| <= m;
      DivAtMostOne(|ta * tb|, m);
    }
    if ta == tb {
      assert ta * tb == ta;
    }
  }

  lemma DivAtMostOne(h: nat, m: nat)
    requires 0 < m && h <= m
    ensures 0.0 <= (h as real) / (m as real) <= 1.0
  {
  }

  /** The 0.55 threshold in whole numbers: 20 shared tokens per 11 of the larger set. */
  lemma ScoreThreshold(ta: set<string>, tb: set<string>)
    ensures Score(ta, tb) >= 0.55 <==> |ta| > 0 && |tb| > 0 && 20 * |ta * tb| >= 11 * MaxNat(|ta|, |tb|)
  {
    if |ta| > 0 && |tb| > 0 {
      RatioThreshold(|ta * tb|, MaxNat(|ta|, |tb|));
    }
  }

  lemma RatioThreshold(h: nat, m: nat)
    requires m > 0
    ensures (h as real) / (m as real) >= 0.55 <==> 20 * h >= 11 * m
  {
    DivAtLeast(h as real, m as real, 0.55);
    assert 0.55 * (m as real) == (11 * m) as real / 20.0;
  }

  lemma DivAtLeast(x: real, m: real, c: real)
    requires m > 0.0
    ensures x / m >= c <==> x >= c * m
  {
    var q := x / m;
    assert q * m == x;
    if q >= c {
      assert (q - c) * m >= 0.0;
    } else {
      assert (c - q) * m > 0.0;
    }
  }

  /** tokenScore as a value: the score of the token sets of two texts. */
  function ScoreOf(a: string, b: string): real {
    Score(TokenSet(a), TokenSet(b))
  }

  /** The loop of tokenScore: how many of the distinct tokens `ta` the other set has. */
  method CountShared(ta: seq<string>, tb: set<string>) returns (hit: nat)
    requires Distinct(ta)
    ensures hit == |Elems(ta) * tb|
  {
    hit := 0;
    var i := 0;
    while i < |ta|
      invariant 0 <= i <= |ta|
      invariant hit == |Elems(ta[..i]) * tb|
    {
      SharedStep(ta, i, tb);
      if ta[i] in tb {
        hit := hit + 1;
      }
      i := i + 1;
    }
    assert ta[..i] == ta;
  }

  /** One more distinct token adds one to the count exactly when the other set has it. */
  lemma SharedStep(ta: seq<string>, i: nat, tb: set<string>)
    requires Distinct(ta) && i < |ta|
    ensures |Elems(ta[..i + 1]) * tb| == |Elems(ta[..i]) * tb| + if ta[i] in tb then 1 else 0
  {
    var p, t := ta[..i], ta[i];
    assert ta[..i + 1] == p + [t];
    assert Elems(p + [t]) == Elems(p) + {t};
    assert t !in Elems(p) by {
      forall j | 0 <= j < i
        ensures p[j] != t
      {
        assert p[j] == ta[j];
      }
    }
    if t in tb {
      assert (Elems(p) + {t}) * tb == Elems(p) * tb + {t};
    } else {
      assert (Elems(p) + {t}) * tb == Elems(p) * tb;
    }
  }

  /** tokenScore: the words of each text as a set, and the count of the words of the first
      that the second also has, against the larger set. */
  method TokenScore(a: string, b: string) returns (score: real)
    ensures score == ScoreOf(a, b)
  {
    var ta := TokenList(a);
    var tb := TokenList(b);
    DistinctCard(ta);
    DistinctCard(tb);
    if |ta| == 0 || |tb| == 0 {
      return 0.0;
    }
    var hit := CountShared(ta, Elems(tb));
    score := (hit as real) / (MaxNat(|ta|, |tb|) as real);
  }

  // ---------------------------------------------------------------- lookups

  /** `.replace(/\bw\b/g, r)` for a word `w` that starts and ends with a word character;
      `prevWord` tells whether the character before `s` is one. */
  function ReplaceWord(s: string, w: string, r: string, prevWord: bool): string
    requires |w| > 0
    decreases |s|
  {
    if |s| == 0 then []
    else if !prevWord && w <= s && (|s| == |w| || !IsWordChar(s[|w|])) then
      r + ReplaceWord(s[|w|..], w, r, IsWordChar(w[|w| - 1]))
    else [s[0]] + ReplaceWord(s[1..], w, r, IsWordChar(s[0]))
  }

  /** `\w`: an ASCII letter, digit or underscore. */
  predicate IsWordChar(c: char) {
    ('a' <= c <= 'z') || ('A' <= c <= 'Z') || ('0' <= c <= '9') || c == '_'
  }

  /** The spelling variants findCourseId tries when the name itself is not known. */
  function CourseAlt(key: string): string {
    ReplaceWord(ReplaceWord(key, "public relation", "public relations", false), "pemprograman", "pemrograman", false)
  }

  /** findCourseId: the course of the normalised name, else of its variant, else none. */
  function FindCourseId(courseByName: map<string, int>, mataKuliah: Option<string>): (id: Option<int>)
    ensures id.Some? ==> id.value in courseByName.Values
    ensures Norm(Text(mataKuliah)) in courseByName ==> id == Some(courseByName[Norm(Text(mataKuliah))])
    ensures id.None? <==> Norm(Text(mataKuliah)) !in courseByName && CourseAlt(Norm(Text(mataKuliah))) !in courseByName
  {
    var key := Norm(Text(mataKuliah));
    if key in courseByName then Some(courseByName[key])
    else
      var alt := CourseAlt(key);
      if alt in courseByName then Some(courseByName[alt]) else None
  }

  /** A name written without the final `s` is found under the plural, and the word
      boundary leaves the plural itself alone. */
  lemma CourseAltExample()
    ensures ReplaceWord("public relation", "public relation", "public relations", false) == "public relations"
    ensures ReplaceWord("public relations", "public relation", "public relations", false) == "public relations"
  {
    SingularReplaced("public relation", "public relations");
    PluralKept("public relation", "public relations");
  }

  lemma SingularReplaced(w: string, r: string)
    requires |w| > 0
    ensures ReplaceWord(w, w, r, false) == r
  {
    assert w[|w|..] == [];
    assert ReplaceWord(w, w, r, false) == r + ReplaceWord([], w, r, IsWordChar(w[|w| - 1]));
  }

  lemma PluralKept(w: string, s: string)
    requires |w| > 1 && |s| == |w| + 1 && w <= s && IsWordChar(s[|w|]) && IsWordChar(s[0]) && s[1] != w[0]
    ensures ReplaceWord(s, w, s, false) == s
  {
    assert ReplaceWord(s, w, s, false) == [s[0]] + ReplaceWord(s[1..], w, s, true);
    assert ReplaceWord(s[1..], w, s, true) == [s[1]] + ReplaceWord(s[2..], w, s, IsWordChar(s[1]));
    ReplaceWordShort(s[2..], w, s, IsWordChar(s[1]));
    assert [s[0]] + ([s[1]] + s[2..]) == s;
  }

  lemma {:induction false} ReplaceWordShort(s: string, w: string, r: string, prevWord: bool)
    requires 0 < |w| && |s| < |w|
    ensures ReplaceWord(s, w, r, prevWord) == s
    decreases |s|
  {
    if |s| > 0 {
      ReplaceWordShort(s[1..], w, r, IsWordChar(s[0]));
      assert [s[0]] + s[1..] == s;
    }
  }

  /** findRoomId: only an `h###` key is looked up, in the map from room-name prefixes. */
  function FindRoomId(roomByPrefix: map<string, int>, ruangRaw: Option<string>): (id: Option<int>)
    ensures id.Some? <==> (RoomKey(ruangRaw).Some? && IsHKey(RoomKey(ruangRaw).value) && RoomKey(ruangRaw).value in roomByPrefix)
    ensures id.Some? ==> id == Some(roomByPrefix[RoomKey(ruangRaw).value])
  {
    var key := RoomKey(ruangRaw);
    if key.None? || key.value == "" then None
    else if IsHKey(key.value) then
      (if key.value in roomByPrefix then Some(roomByPrefix[key.value]) else None)
    else None
  }

  /** A room number cell is looked up under `h` and the number padded to three digits. */
  lemma RoomNumberLookup(roomByPrefix: map<string, int>, ruangRaw: Option<string>)
    requires var r := Trim(Text(ruangRaw)); 0 < |r| <= 3 && AllDigits(r)
    ensures var k := "h" + PadStart(Trim(Text(ruangRaw)), 3, '0');
            FindRoomId(roomByPrefix, ruangRaw) == if k in roomByPrefix then Some(roomByPrefix[k]) else None
  {
    RoomKeyOfNumber(ruangRaw, Trim(Text(ruangRaw)));
  }

  datatype Lecturer = Lecturer(id: int, key: string)

  /** The key a `Dosen` cell is matched under: the first name, without titles, normalised.
      Title stripping is a regular-expression rewrite passed in as `strip`. */
  function LecturerKey(dosenRaw: Option<string>, strip: string -> string): string {
    Norm(strip(FirstLecturerName(dosenRaw)))
  }

  /** The score of every lecturer key against the key of a cell. */
  function ScoresAgainst(key: string): string -> real {
    (k: string) => ScoreOf(key, k)
  }

  datatype Best = Best(id: Option<int>, score: real)

  /** The `best` of the fuzzy loop after the given lecturers: replaced only by a strictly
      higher score. */
  function BestOf(score: string -> real, ls: seq<Lecturer>): Best {
    if |ls| == 0 then Best(None, 0.0)
    else
      var b := BestOf(score, ls[..|ls| - 1]);
      var s := score(ls[|ls| - 1].key);
      if s > b.score then Best(Some(ls[|ls| - 1].id), s) else b
  }

  /** The best score is the highest score of any lecturer (0 for none), and a positive one
      belongs to the first lecturer that reaches it. */
  lemma {:induction false} BestOfSpec(score: string -> real, ls: seq<Lecturer>)
    ensures BestOf(score, ls).score >= 0.0
    ensures forall i :: 0 <= i < |ls| ==> score(ls[i].key) <= BestOf(score, ls).score
    ensures BestOf(score, ls).score == 0.0 ==> BestOf(score, ls).id.None?
    ensures BestOf(score, ls).score > 0.0 ==>
              exists i :: 0 <= i < |ls| && BestOf(score, ls).id == Some(ls[i].id) && score(ls[i].key) == BestOf(score, ls).score
                          && forall j :: 0 <= j < i ==> score(ls[j].key) < BestOf(score, ls).score
  {
    if |ls| > 0 {
      var init := ls[..|ls| - 1];
      BestOfSpec(score, init);
      var b := BestOf(score, init);
      var last := ls[|ls| - 1];
      var s := score(last.key);
      assert forall i :: 0 <= i < |init| ==> ls[i] == init[i];
      if s > b.score {
        assert forall j :: 0 <= j < |ls| - 1 ==> score(ls[j].key) < s;
      } else if b.score > 0.0 {
        var i :| 0 <= i < |init| && b.id == Some(init[i].id) && score(init[i].key) == b.score
                 && forall j :: 0 <= j < i ==> score(init[j].key) < b.score;
        assert ls[i] == init[i];
      }
    }
  }

  /** `lecturerList.find((l) => l.key === key)`, as an index; -1 when there is none. */
  function ExactIndex(ls: seq<Lecturer>, key: string): (e: int)
    ensures -1 <= e < |ls|
    ensures e >= 0 ==> ls[e].key == key && forall j :: 0 <= j < e ==> ls[j].key != key
    ensures e == -1 <==> forall j :: 0 <= j < |ls| ==> ls[j].key != key
  {
    FindIndex((l: Lecturer) => l.key == key, ls)
  }

  /** findLecturerId for the key of a cell: none for an empty key, the first lecturer
      with exactly the key, else the best-scoring lecturer when the score reaches 0.55. */
  function MatchKey(ls: seq<Lecturer>, key: string): Option<int> {
    MatchBy(ScoresAgainst(key), ls, key)
  }

  /** The decision of findLecturerId for any scoring of the lecturer keys. */
  function MatchBy(score: string -> real, ls: seq<Lecturer>, key: string): Option<int> {
    if key == "" then None
    else
      var e := ExactIndex(ls, key);
      if e >= 0 then Some(ls[e].id)
      else
        var b := BestOf(score, ls);
        if b.score >= 0.55 then b.id else None
  }

  function LecturerMatch(ls: seq<Lecturer>, dosenRaw: Option<string>, strip: string -> string): Option<int> {
    MatchKey(ls, LecturerKey(dosenRaw, strip))
  }

  /** The three ways findLecturerId decides, and that it finds nobody exactly when the key
      is empty, or no lecturer has the key and every score stays below 0.55; this holds
      for the token score and for any other scoring. */
  lemma MatchKeySpec(score: string -> real, ls: seq<Lecturer>, key: string)
    ensures key == "" ==> MatchBy(score, ls, key).None?
    ensures forall e :: (0 <= e < |ls| && ls[e].key == key && key != ""
                         && (forall j :: 0 <= j < e ==> ls[j].key != key)) ==> MatchBy(score, ls, key) == Some(ls[e].id)
    ensures MatchBy(score, ls, key).None? <==>
              key == "" || forall i :: 0 <= i < |ls| ==> ls[i].key != key && score(ls[i].key) < 0.55
  {
    BestOfSpec(score, ls);
    var e := ExactIndex(ls, key);
    forall e' | 0 <= e' < |ls| && ls[e'].key == key && key != "" && (forall j :: 0 <= j < e' ==> ls[j].key != key)
      ensures MatchBy(score, ls, key) == Some(ls[e'].id)
    {
      assert e == e';
    }
  }

  /** When no key matches exactly, a found lecturer is the first with the highest score,
      and that score is at least 0.55. */
  lemma MatchKeyFuzzy(score: string -> real, ls: seq<Lecturer>, key: string)
    requires forall i :: 0 <= i < |ls| ==> ls[i].key != key
    requires MatchBy(score, ls, key).Some?
    ensures exists i :: 0 <= i < |ls| && MatchBy(score, ls, key) == Some(ls[i].id)
                        && score(ls[i].key) >= 0.55
                        && (forall j :: 0 <= j < |ls| ==> score(ls[j].key) <= score(ls[i].key))
                        && (forall j :: 0 <= j < i ==> score(ls[j].key) < score(ls[i].key))
  {
    BestOfSpec(score, ls);
  }

  /** The exact lookup, then the loop keeping the best score so far. */
  method MatchLecturerKey(ls: seq<Lecturer>, key: string) returns (id: Option<int>)
    ensures id == MatchKey(ls, key)
  {
    if key == "" {
      return None;
    }
    var e := ExactIndex(ls, key);
    if e >= 0 {
      return Some(ls[e].id);
    }
    var best := Best(None, 0.0);
    var i := 0;
    while i < |ls|
      invariant 0 <= i <= |ls|
      invariant best == BestOf(ScoresAgainst(key), ls[..i])
    {
      BestOfStep(ScoresAgainst(key), ls, i);
      var s := TokenScore(key, ls[i].key);
      assert s == ScoresAgainst(key)(ls[i].key);
      if s > best.score {
        best := Best(Some(ls[i].id), s);
      }
      i := i + 1;
    }
    assert ls[..i] == ls;
    id := if best.score >= 0.55 then best.id else None;
  }

  /** The best after one more lecturer: that one when its score is strictly higher. */
  lemma BestOfStep(score: string -> real, ls: seq<Lecturer>, i: nat)
    requires i < |ls|
    ensures BestOf(score, ls[..i + 1]) ==
      if score(ls[i].key) > BestOf(score, ls[..i]).score then Best(Some(ls[i].id), score(ls[i].key))
      else BestOf(score, ls[..i])
  {
    assert ls[..i + 1][..i] == ls[..i];
  }

  /** findLecturerId: the key of the cell, then the match. */
  method FindLecturerId(ls: seq<Lecturer>, dosenRaw: Option<string>, strip: string -> string) returns (id: Option<int>)
    ensures id == LecturerMatch(ls, dosenRaw, strip)
  {
    var key := LecturerKey(dosenRaw, strip);
    id := MatchLecturerKey(ls, key);
  }

  // ---------------------------------------------------------------- the common row fields

  /** The columns both scripts copy from an accepted row. */
  datatype Fields = Fields(day: Option<string>, startTime: string, endTime: string,
                           studyProgram: Option<string>, classGroup: Option<string>,
                           semester: Option<Number>, jpm: Number)

  /** `String(classGroup || "").split("-")[0] || null`. */
  function StudyProgram(classGroup: Option<string>): (p: Option<string>)
    ensures p.Some? ==> p.value != "" && '-' !in p.value
    ensures p.Some? ==> var g := Text(classGroup); g == p.value || (|p.value| < |g| && g[..|p.value| + 1] == p.value + "-")
  {
    var g := if Present(classGroup) then classGroup.value else "";
    var first := Split(g, '-')[0];
    SplitJoin(g, '-');
    assert '-' !in first;
    if first == "" then None
    else
      assert '-' in g ==> g[..|first| + 1] == first + "-" by {
        if '-' in g {
          assert g[..IndexOf(g, '-') + 1] == g[..IndexOf(g, '-')] + [g[IndexOf(g, '-')]];
        }
      }
      Some(first)
  }

  /** The shared part of both row handlers: skip a row without `Jam` or whose range lacks
      a start or an end; otherwise the day, the times, the study programme, the class,
      the semester (`Number(prof)` when given) and the hours (`Number(JPM)`, 0 by default). */
  function RowFields(row: CsvRecord): (f: Option<Fields>)
    ensures f.Some? ==> Present(Field(row, "Jam")) && ParseTimeRange(Field(row, "Jam").value).Range?
    ensures f.Some? ==> f.value.startTime != "" && f.value.endTime != ""
    ensures f.Some? && !Present(Field(row, "JPM")) ==> f.value.jpm == Finite(0.0)
    ensures f.Some? ==> f.value.classGroup == Field(row, "kelas") && f.value.day == Field(row, "Hari")
  {
    var jam := Field(row, "Jam");
    if !Present(jam) then None
    else
      match ParseTimeRange(jam.value)
      case NoRange => None
      case Range(startTime, endTime) =>
        if startTime == "" || endTime == "" then None
        else
          var prof := Field(row, "prof");
          var jpm := Field(row, "JPM");
          Some(Fields(Field(row, "Hari"), startTime, endTime, StudyProgram(Field(row, "kelas")), Field(row, "kelas"),
                      if Present(prof) then Some(StringToNumber(prof.value)) else None,
                      if Present(jpm) then StringToNumber(jpm.value) else Finite(0.0)))
  }

  /** A row is skipped exactly when `Jam` is missing or empty, has no `-`, or yields an
      empty start or end. */
  lemma RowSkipped(row: CsvRecord)
    ensures RowFields(row).None? <==>
              !Present(Field(row, "Jam")) || '-' !in Field(row, "Jam").value
              || ParseTimeRange(Field(row, "Jam").value).start == "" || ParseTimeRange(Field(row, "Jam").value).end == ""
  {
  }
}
