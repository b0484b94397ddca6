/**
 * The post-processing that `get_text_from_audio` applies to the segment texts
 * returned by the speech-to-text collaborator before the answer is typed in:
 * deduplicate the segment texts keeping the first, strip each, join them with
 * single spaces, turn every run of characters that are neither word characters
 * nor whitespace into a space, collapse whitespace runs to one space and strip
 * the ends.
 *
 * `Normalize` is that chain. Its partner is a reference definition: the result
 * is the maximal runs of word characters of the distinct raw segments, in order
 * of first occurrence, joined by single spaces (`NormalizeIsJoinedWords`).
 */
module Transcript {

  // ---------------------------------------------------------------------------
  // Character classes
  // ---------------------------------------------------------------------------

  /** `\w` of Python's `re`, restricted to ASCII: letters, digits and `_`. */
  predicate IsWordChar(c: char) {
    ('a' <= c <= 'z') || ('A' <= c <= 'Z') || ('0' <= c <= '9') || c == '_'
  }

  /** `\s` of Python's `re`, which is also what `str.strip()` removes, restricted
      to ASCII: tab, line feed, vertical tab, form feed, carriage return, the
      separators U+001C to U+001F, and the space. */
  predicate IsSpace(c: char) {
    ('\t' <= c <= '\r') || ('\U{1C}' <= c <= '\U{1F}') || c == ' '
  }

  /** The two character classes whose runs the substitutions rewrite:
      `[^\w\s]` and `\s`. Neither contains a word character. */
  datatype RunClass = Punctuation | Whitespace

  predicate InClass(c: char, k: RunClass) {
    match k
    case Punctuation => !IsWordChar(c) && !IsSpace(c)
    case Whitespace => IsSpace(c)
  }

  // ---------------------------------------------------------------------------
  // Deduplication on the text, keeping the first occurrence
  // ---------------------------------------------------------------------------

  /** Position of the first row whose text is `x`. */
  function FirstIndex(rows: seq<string>, x: string): (i: nat)
    requires x in rows
    ensures i < |rows| && rows[i] == x && x !in rows[..i]
  {
    if rows[0] == x then 0
    else
      var j := FirstIndex(rows[1..], x);
      assert rows[..j + 1] == [rows[0]] + rows[1..][..j];
      1 + j
  }

  lemma FirstIndexExtend(rows: seq<string>, y: string)
    ensures forall x | x in rows :: FirstIndex(rows + [y], x) == FirstIndex(rows, x)
    ensures y !in rows ==> FirstIndex(rows + [y], y) == |rows|
  {
    var ext := rows + [y];
    forall x | x in rows
      ensures FirstIndex(ext, x) == FirstIndex(rows, x)
    {
      assert ext[FirstIndex(rows, x)] == x;
    }
  }

  /** The rows left by pandas' `drop_duplicates` on the raw text column, with
      its default `keep="first"`: a row is kept when no earlier row has the
      same text. Texts are compared before stripping. */
  function Dedup(rows: seq<string>): seq<string> {
    if rows == [] then []
    else
      var prefix, last := rows[..|rows| - 1], rows[|rows| - 1];
      if last in prefix then Dedup(prefix) else Dedup(prefix) + [last]
  }

  /** `Dedup` keeps every distinct text exactly once, in the order of its first
      occurrence. */
  lemma {:induction false} DedupSpec(rows: seq<string>)
    ensures forall x :: x in Dedup(rows) <==> x in rows
    ensures forall j, k | 0 <= j < k < |Dedup(rows)| ::
      FirstIndex(rows, Dedup(rows)[j]) < FirstIndex(rows, Dedup(rows)[k])
    ensures forall j, k | 0 <= j < k < |Dedup(rows)| :: Dedup(rows)[j] != Dedup(rows)[k]
  {
    if rows != [] {
      var prefix, last := rows[..|rows| - 1], rows[|rows| - 1];
      assert rows == prefix + [last];
      DedupSpec(prefix);
      FirstIndexExtend(prefix, last);
    }
  }

  // ---------------------------------------------------------------------------
  // Stripping each segment and joining with single spaces
  // ---------------------------------------------------------------------------

  /** Drops the longest prefix of `s` made of characters of class `k`. */
  function SkipRun(s: string, k: RunClass): (r: string)
    ensures |r| <= |s|
  {
    if s != [] && InClass(s[0], k) then SkipRun(s[1..], k) else s
  }

  /** `SkipRun` drops a prefix, only characters of the class, and all of them. */
  lemma {:induction false} SkipRunSpec(s: string, k: RunClass)
    ensures SkipRun(s, k) == s[|s| - |SkipRun(s, k)|..]
    ensures forall i | 0 <= i < |s| - |SkipRun(s, k)| :: InClass(s[i], k)
    ensures SkipRun(s, k) == [] || !InClass(SkipRun(s, k)[0], k)
  {
    if s != [] && InClass(s[0], k) {
      SkipRunSpec(s[1..], k);
    }
  }

  /** Drops the longest suffix of `s` made of whitespace. */
  function StripTrailing(s: string): string {
    if s != [] && IsSpace(s[|s| - 1]) then StripTrailing(s[..|s| - 1]) else s
  }

  /** `StripTrailing` drops a suffix, only whitespace, and all of it. */
  lemma {:induction false} StripTrailingSpec(s: string)
    ensures |StripTrailing(s)| <= |s| && StripTrailing(s) == s[..|StripTrailing(s)|]
    ensures forall i | |StripTrailing(s)| <= i < |s| :: IsSpace(s[i])
    ensures StripTrailing(s) == [] || !IsSpace(StripTrailing(s)[|StripTrailing(s)| - 1])
  {
    if s != [] && IsSpace(s[|s| - 1]) {
      StripTrailingSpec(s[..|s| - 1]);
    }
  }

  /** Python's `str.strip()` without arguments. */
  function Strip(s: string): string {
    StripTrailing(SkipRun(s, Whitespace))
  }

  /** `.str.strip()` applied to every row. */
  function StripEach(rows: seq<string>): seq<string> {
    seq(|rows|, i requires 0 <= i < |rows| => Strip(rows[i]))
  }

  /** Python's `" ".join(parts)`. */
  function JoinSpaces(parts: seq<string>): string {
    if parts == [] then []
    else if |parts| == 1 then parts[0]
    else parts[0] + " " + JoinSpaces(parts[1..])
  }

  // ---------------------------------------------------------------------------
  // The punctuation substitution and the whitespace substitution
  // ---------------------------------------------------------------------------

  /** Replaces every run of class-`k` characters by one space. The regular
      expression engine matches maximal runs from left to right, so
      every maximal run of class-`k` characters becomes one space and every
      other character is kept. */
  function ReplaceRuns(s: string, k: RunClass): string
    decreases |s|
  {
    if s == [] then []
    else if InClass(s[0], k) then " " + ReplaceRuns(SkipRun(s[1..], k), k)
    else [s[0]] + ReplaceRuns(s[1..], k)
  }

  lemma MembersOfSuffix(s: string, t: string)
    requires |t| <= |s| && t == s[|s| - |t|..]
    ensures forall c | c in t :: c in s
  {
  }

  /** After `ReplaceRuns` the only character of the class left is the space,
      no two of them are adjacent, and every other character comes from `s`. */
  lemma {:induction false} ReplaceRunsShape(s: string, k: RunClass)
    ensures var r := ReplaceRuns(s, k);
      && (forall i | 0 <= i < |r| :: InClass(r[i], k) ==> r[i] == ' ')
      && (forall i | 0 <= i < |r| - 1 :: !(InClass(r[i], k) && InClass(r[i + 1], k)))
      && (forall c | c in r :: c == ' ' || c in s)
      && (s != [] ==> r != [] && r[0] == (if InClass(s[0], k) then ' ' else s[0]))
    decreases |s|
  {
    if s == [] {
    } else if InClass(s[0], k) {
      var rest := SkipRun(s[1..], k);
      SkipRunSpec(s[1..], k);
      MembersOfSuffix(s, rest);
      ReplaceRunsShape(rest, k);
      var t := ReplaceRuns(rest, k);
      assert ReplaceRuns(s, k) == " " + t;
    } else {
      MembersOfSuffix(s, s[1..]);
      ReplaceRunsShape(s[1..], k);
      var t := ReplaceRuns(s[1..], k);
      assert ReplaceRuns(s, k) == [s[0]] + t;
    }
  }

  /** Lines 186-187 applied to one string: punctuation runs become spaces,
      whitespace runs become one space, and the ends are stripped. */
  function Clean(s: string): string {
    Strip(ReplaceRuns(ReplaceRuns(s, Punctuation), Whitespace))
  }

  /** The answer text `get_text_from_audio` returns for the segment texts `rows`. */
  function Normalize(rows: seq<string>): (text: string)
    ensures forall i | 0 <= i < |text| :: !InClass(text[i], Punctuation)
    ensures forall i | 0 <= i < |text| :: IsSpace(text[i]) ==> text[i] == ' '
    ensures forall i | 0 <= i < |text| - 1 :: !(text[i] == ' ' && text[i + 1] == ' ')
    ensures text == [] || (!IsSpace(text[0]) && !IsSpace(text[|text| - 1]))
  {
    var text := Clean(JoinSpaces(StripEach(Dedup(rows))));
    CleanIsNormal(JoinSpaces(StripEach(Dedup(rows))));
    text
  }

  /** The shape of every cleaned text: only word characters and single spaces,
      with no space at either end. */
  predicate Normal(s: string) {
    && (forall i | 0 <= i < |s| :: IsWordChar(s[i]) || s[i] == ' ')
    && (forall i | 0 <= i < |s| - 1 :: s[i] == ' ' ==> s[i + 1] != ' ')
    && (s == [] || (s[0] != ' ' && s[|s| - 1] != ' '))
  }

  /** Stripping a text made of word characters and single spaces leaves the
      shape `Normal` describes. */
  lemma StripOfSpaced(b: string)
    requires forall i | 0 <= i < |b| :: IsWordChar(b[i]) || b[i] == ' '
    requires forall i | 0 <= i < |b| - 1 :: b[i] == ' ' ==> b[i + 1] != ' '
    ensures Normal(Strip(b))
  {
    var l := SkipRun(b, Whitespace);
    var c := StripTrailing(l);
    SkipRunSpec(b, Whitespace);
    StripTrailingSpec(l);
    var off := |b| - |l|;
    forall i | 0 <= i < |c|
      ensures c[i] == b[off + i]
    {
      assert c[i] == l[i];
    }
  }

  lemma CleanIsNormal(s: string)
    ensures Normal(Clean(s))
  {
    var a := ReplaceRuns(s, Punctuation);
    var b := ReplaceRuns(a, Whitespace);
    ReplaceRunsShape(s, Punctuation);
    ReplaceRunsShape(a, Whitespace);
    forall i | 0 <= i < |b|
      ensures IsWordChar(b[i]) || b[i] == ' '
    {
      assert b[i] in b;
      assert b[i] == ' ' || b[i] in a;
    }
    StripOfSpaced(b);
  }

  // ---------------------------------------------------------------------------
  // Reference definition: maximal runs of word characters
  // ---------------------------------------------------------------------------

  function Flush(cur: string): seq<string> {
    if cur == [] then [] else [cur]
  }

  /** The maximal runs of word characters of `cur + s`, where `cur` is a run of
      word characters already started. */
  function WordsFrom(s: string, cur: string): seq<string> {
    if s == [] then Flush(cur)
    else if IsWordChar(s[0]) then WordsFrom(s[1..], cur + [s[0]])
    else Flush(cur) + WordsFrom(s[1..], [])
  }

  function Words(s: string): seq<string> {
    WordsFrom(s, [])
  }

  function WordsOfRows(rows: seq<string>): seq<string> {
    if rows == [] then [] else Words(rows[0]) + WordsOfRows(rows[1..])
  }

  /** A character that is not a word character ends the current run. */
  lemma WordsAtSeparator(s: string, cur: string)
    requires s != [] && !IsWordChar(s[0])
    ensures WordsFrom(s, cur) == Flush(cur) + Words(s[1..])
  {
  }

  lemma {:induction false} WordsOfSkipRun(s: string, k: RunClass)
    ensures Words(SkipRun(s, k)) == Words(s)
  {
    if s != [] && InClass(s[0], k) {
      assert !IsWordChar(s[0]);
      WordsAtSeparator(s, []);
      assert SkipRun(s, k) == SkipRun(s[1..], k);
      WordsOfSkipRun(s[1..], k);
    }
  }

  lemma {:induction false} WordsOfNonWord(t: string, cur: string)
    requires forall i | 0 <= i < |t| :: !IsWordChar(t[i])
    ensures WordsFrom(t, cur) == Flush(cur)
  {
    if t != [] {
      WordsOfNonWord(t[1..], []);
    }
  }

  lemma {:induction false} WordsDropNonWordSuffix(p: string, t: string, cur: string)
    requires forall i | 0 <= i < |t| :: !IsWordChar(t[i])
    ensures WordsFrom(p + t, cur) == WordsFrom(p, cur)
  {
    if p == [] {
      assert p + t == t;
      WordsOfNonWord(t, cur);
    } else {
      assert (p + t)[0] == p[0] && (p + t)[1..] == p[1..] + t;
      WordsDropNonWordSuffix(p[1..], t, if IsWordChar(p[0]) then cur + [p[0]] else []);
    }
  }

  lemma WordsOfStrip(s: string)
    ensures Words(Strip(s)) == Words(s)
  {
    var l := SkipRun(s, Whitespace);
    WordsOfSkipRun(s, Whitespace);
    var r := StripTrailing(l);
    StripTrailingSpec(l);
    var t := l[|r|..];
    assert l == r + t;
    assert forall i | 0 <= i < |t| :: IsSpace(t[i]) by {
      assert forall i | 0 <= i < |t| :: t[i] == l[|r| + i];
    }
    WordsDropNonWordSuffix(r, t, []);
  }

  lemma {:induction false} WordsOfReplaceRuns(s: string, k: RunClass, cur: string)
    ensures WordsFrom(ReplaceRuns(s, k), cur) == WordsFrom(s, cur)
    decreases |s|
  {
    if s == [] {
    } else if InClass(s[0], k) {
      var rest := SkipRun(s[1..], k);
      WordsOfReplaceRuns(rest, k, []);
      WordsOfSkipRun(s[1..], k);
      var r := ReplaceRuns(s, k);
      assert r == " " + ReplaceRuns(rest, k);
      assert r[0] == ' ' && r[1..] == ReplaceRuns(rest, k);
      WordsAtSeparator(r, cur);
      assert !IsWordChar(s[0]);
      WordsAtSeparator(s, cur);
    } else {
      WordsOfReplaceRuns(s[1..], k, if IsWordChar(s[0]) then cur + [s[0]] else []);
      var r := ReplaceRuns(s, k);
      assert r[0] == s[0] && r[1..] == ReplaceRuns(s[1..], k);
    }
  }

  /** The cleaning steps keep the words of the text, in order. */
  lemma WordsOfClean(s: string)
    ensures Words(Clean(s)) == Words(s)
  {
    var a := ReplaceRuns(s, Punctuation);
    WordsOfReplaceRuns(s, Punctuation, []);
    WordsOfReplaceRuns(a, Whitespace, []);
    WordsOfStrip(ReplaceRuns(a, Whitespace));
  }

  lemma {:induction false} WordsOfJoinedPair(a: string, b: string, cur: string)
    ensures WordsFrom(a + " " + b, cur) == WordsFrom(a, cur) + Words(b)
  {
    var ab := a + " " + b;
    if a == [] {
      assert ab[0] == ' ' && ab[1..] == b;
    } else {
      assert ab[0] == a[0] && ab[1..] == a[1..] + " " + b;
      WordsOfJoinedPair(a[1..], b, if IsWordChar(a[0]) then cur + [a[0]] else []);
    }
  }

  lemma {:induction false} WordsOfJoinSpaces(parts: seq<string>)
    ensures Words(JoinSpaces(parts)) == WordsOfRows(parts)
  {
    if |parts| == 1 {
      assert WordsOfRows(parts) == Words(parts[0]) + WordsOfRows([]);
    } else if |parts| > 1 {
      WordsOfJoinSpaces(parts[1..]);
      WordsOfJoinedPair(parts[0], JoinSpaces(parts[1..]), []);
    }
  }

  lemma {:induction false} WordsOfStripEach(rows: seq<string>)
    ensures WordsOfRows(StripEach(rows)) == WordsOfRows(rows)
  {
    if rows != [] {
      assert StripEach(rows)[1..] == StripEach(rows[1..]);
      WordsOfStripEach(rows[1..]);
      WordsOfStrip(rows[0]);
    }
  }

  /** A text of the shape `Normal` describes is its own words joined by single
      spaces (generalised to a run `cur` already started). */
  lemma {:induction false} JoinWordsOfNormal(n: string, cur: string)
    requires forall i | 0 <= i < |n| :: IsWordChar(n[i]) || n[i] == ' '
    requires forall i | 0 <= i < |n| - 1 :: n[i] == ' ' ==> n[i + 1] != ' '
    requires n == [] || n[|n| - 1] != ' '
    requires cur == [] ==> n == [] || n[0] != ' '
    ensures JoinSpaces(WordsFrom(n, cur)) == cur + n
  {
    if n == [] {
    } else if IsWordChar(n[0]) {
      JoinWordsOfNormal(n[1..], cur + [n[0]]);
      assert cur + [n[0]] + n[1..] == cur + n;
    } else {
      var ws := WordsFrom(n[1..], []);
      JoinWordsOfNormal(n[1..], []);
      assert WordsFrom(n, cur) == [cur] + ws;
      assert ws != [];
      assert ([cur] + ws)[1..] == ws;
      assert cur + n == cur + " " + n[1..];
    }
  }

  /** Lines 186-187 compute exactly the words of their input joined by single spaces. */
  lemma CleanIsJoinedWords(s: string)
    ensures Clean(s) == JoinSpaces(Words(s))
  {
    CleanIsNormal(s);
    JoinWordsOfNormal(Clean(s), []);
    WordsOfClean(s);
  }

  /** The answer is the words of the distinct raw segments, in order of first
      occurrence, joined by single spaces. */
  lemma NormalizeIsJoinedWords(rows: seq<string>)
    ensures Normalize(rows) == JoinSpaces(WordsOfRows(Dedup(rows)))
  {
    var kept := Dedup(rows);
    CleanIsJoinedWords(JoinSpaces(StripEach(kept)));
    WordsOfJoinSpaces(StripEach(kept));
    WordsOfStripEach(kept);
  }

  // ---------------------------------------------------------------------------
  // Idempotence
  // ---------------------------------------------------------------------------

  /** Running the two substitutions and the strip a second time changes nothing. */
  lemma CleanIdempotent(s: string)
    ensures Clean(Clean(s)) == Clean(s)
  {
    CleanIsJoinedWords(Clean(s));
    WordsOfClean(s);
    CleanIsJoinedWords(s);
  }

  /** The answer is a fixed point of lines 186-187, and of the whole
      post-processing when it is fed back as a single segment. */
  lemma NormalizeIsFixpoint(rows: seq<string>)
    ensures Clean(Normalize(rows)) == Normalize(rows)
    ensures Normalize([Normalize(rows)]) == Normalize(rows)
  {
    var n := Normalize(rows);
    CleanIdempotent(JoinSpaces(StripEach(Dedup(rows))));
    assert Dedup([n]) == [n] by {
      assert [n][..0] == [];
    }
    assert SkipRun(n, Whitespace) == n;
    assert StripTrailing(n) == n;
    assert StripEach([n]) == [n];
  }

  // ---------------------------------------------------------------------------
  // Word characters are kept, in order
  // ---------------------------------------------------------------------------

  /** The word characters of `s`, in order. */
  function WordChars(s: string): (w: string)
    ensures forall i | 0 <= i < |w| :: IsWordChar(w[i])
  {
    if s == [] then []
    else (if IsWordChar(s[0]) then [s[0]] else []) + WordChars(s[1..])
  }

  /** `s` with every space character removed. */
  function RemoveSpaces(s: string): string {
    if s == [] then []
    else (if s[0] == ' ' then [] else [s[0]]) + RemoveSpaces(s[1..])
  }

  function Flatten(ws: seq<string>): string {
    if ws == [] then [] else ws[0] + Flatten(ws[1..])
  }

  /** The word characters of each row, concatenated. */
  function WordCharsOfRows(rows: seq<string>): string {
    if rows == [] then [] else WordChars(rows[0]) + WordCharsOfRows(rows[1..])
  }

  lemma {:induction false} FlattenAppend(a: seq<string>, b: seq<string>)
    ensures Flatten(a + b) == Flatten(a) + Flatten(b)
  {
    if a == [] {
      assert a + b == b;
    } else {
      assert (a + b)[0] == a[0] && (a + b)[1..] == a[1..] + b;
      FlattenAppend(a[1..], b);
    }
  }

  lemma {:induction false} FlattenWordsFrom(s: string, cur: string)
    ensures Flatten(WordsFrom(s, cur)) == cur + WordChars(s)
  {
    if s == [] {
    } else if IsWordChar(s[0]) {
      FlattenWordsFrom(s[1..], cur + [s[0]]);
    } else {
      FlattenWordsFrom(s[1..], []);
      FlattenAppend(Flush(cur), WordsFrom(s[1..], []));
    }
  }

  lemma {:induction false} FlattenWordsOfRows(rows: seq<string>)
    ensures Flatten(WordsOfRows(rows)) == WordCharsOfRows(rows)
  {
    if rows != [] {
      FlattenWordsOfRows(rows[1..]);
      FlattenWordsFrom(rows[0], []);
      FlattenAppend(Words(rows[0]), WordsOfRows(rows[1..]));
    }
  }

  lemma {:induction false} RemoveSpacesOfWordsAndSpaces(n: string)
    requires forall i | 0 <= i < |n| :: IsWordChar(n[i]) || n[i] == ' '
    ensures RemoveSpaces(n) == WordChars(n)
  {
    if n != [] {
      RemoveSpacesOfWordsAndSpaces(n[1..]);
    }
  }

  /** Removing the spaces from the answer gives exactly the word characters of
      the joined, stripped, deduplicated segments, which are the word
      characters of the deduplicated raw segments one after the other. */
  lemma NormalizeKeepsWordChars(rows: seq<string>)
    ensures RemoveSpaces(Normalize(rows)) == WordChars(JoinSpaces(StripEach(Dedup(rows))))
    ensures RemoveSpaces(Normalize(rows)) == WordCharsOfRows(Dedup(rows))
  {
    var joined := JoinSpaces(StripEach(Dedup(rows)));
    assert Normalize(rows) == Clean(joined);
    CleanKeepsWordChars(joined);
    WordCharsOfJoined(Dedup(rows));
  }

  /** Lines 186-187 keep every word character, in order, and add only spaces. */
  lemma CleanKeepsWordChars(s: string)
    ensures RemoveSpaces(Clean(s)) == WordChars(s)
  {
    var c := Clean(s);
    CleanIsNormal(s);
    RemoveSpacesOfWordsAndSpaces(c);
    FlattenWordsFrom(c, []);
    assert [] + WordChars(c) == WordChars(c);
    WordsOfClean(s);
    FlattenWordsFrom(s, []);
    assert [] + WordChars(s) == WordChars(s);
  }

  /** Stripping the rows and joining them with spaces keeps their word
      characters, in order. */
  lemma WordCharsOfJoined(rows: seq<string>)
    ensures WordChars(JoinSpaces(StripEach(rows))) == WordCharsOfRows(rows)
  {
    var joined := JoinSpaces(StripEach(rows));
    FlattenWordsFrom(joined, []);
    assert [] + WordChars(joined) == WordChars(joined);
    WordsOfJoinSpaces(StripEach(rows));
    WordsOfStripEach(rows);
    FlattenWordsOfRows(rows);
  }

  lemma {:induction false} WordCharsOfRowsEmpty(rows: seq<string>)
    ensures WordCharsOfRows(rows) == [] <==> forall r | r in rows :: WordChars(r) == []
  {
    if rows != [] {
      WordCharsOfRowsEmpty(rows[1..]);
      assert WordCharsOfRows(rows) == WordChars(rows[0]) + WordCharsOfRows(rows[1..]);
      assert forall r | r in rows :: r == rows[0] || r in rows[1..];
      assert rows[0] in rows;
      assert forall r | r in rows[1..] :: r in rows;
    }
  }

  /** The answer is empty exactly when no segment holds a word character. */
  lemma NormalizeEmptyIff(rows: seq<string>)
    ensures Normalize(rows) == [] <==> forall r | r in rows :: WordChars(r) == []
  {
    var n := Normalize(rows);
    NormalizeKeepsWordChars(rows);
    WordCharsOfRowsEmpty(Dedup(rows));
    DedupSpec(rows);
    if n != [] {
      assert RemoveSpaces(n) == [n[0]] + RemoveSpaces(n[1..]);
    }
  }

  // ---------------------------------------------------------------------------
  // Deduplication compares the raw texts
  // ---------------------------------------------------------------------------

  lemma {:induction false} WordsOfWord(w: string, cur: string)
    requires forall i | 0 <= i < |w| :: IsWordChar(w[i])
    requires cur + w != []
    ensures WordsFrom(w, cur) == [cur + w]
  {
    if w == [] {
      assert cur + w == cur;
    } else {
      WordsOfWord(w[1..], cur + [w[0]]);
      assert cur + [w[0]] + w[1..] == cur + w;
    }
  }

  /** Two distinct texts are both kept, in order. */
  lemma DedupOfDistinctPair(a: string, b: string)
    requires a != b
    ensures Dedup([a, b]) == [a, b]
  {
    assert [a][..0] == [];
    assert Dedup([a]) == [a];
    assert [a, b][..1] == [a];
  }

  /** Two segments that differ only in leading whitespace are both kept, so the
      same word reaches the answer twice. */
  lemma DuplicateAfterStrip(w: string)
    requires w != [] && forall i | 0 <= i < |w| :: IsWordChar(w[i])
    ensures Normalize([w, " " + w]) == w + " " + w
  {
    var padded := " " + w;
    assert |padded| == |w| + 1;
    DedupOfDistinctPair(w, padded);
    NormalizeIsJoinedWords([w, padded]);
    WordsOfWord(w, []);
    assert [] + w == w;
    assert padded[0] == ' ' && padded[1..] == w;
    assert Words(padded) == [w];
    var rows: seq<string>, tail: seq<string> := [w, padded], [padded];
    assert rows[1..] == tail && tail[1..] == [];
    assert WordsOfRows(tail) == [w];
    assert WordsOfRows(rows) == [w, w];
    assert JoinSpaces([w, w]) == w + " " + JoinSpaces([w]);
  }
}
