/**
 * The text helpers of utils.py: truncation with an ellipsis, h/m/s duration
 * formatting, filename sanitising and generation, word counting and keyword
 * extraction by frequency.
 */
module Utils {
  import opened Wrappers
  import opened Text
  import opened Decimal

  // ---------------------------------------------------------------- truncate_text

  /** `truncate_text`: short text is returned as is; longer text is cut to `maxLength` characters and gets "...". */
  function TruncateText(text: string, maxLength: int := 100): (r: string)
    ensures |text| <= maxLength ==> r == text
    ensures |text| > maxLength ==> |r| >= 3 && r[|r| - 3..] == "..." && r[..|r| - 3] <= text
    ensures |text| > maxLength && maxLength >= 0 ==> |r| == maxLength + 3
    ensures |text| > maxLength && maxLength < 0 ==> |r| == (if -maxLength <= |text| then |text| + maxLength else 0) + 3
  {
    if |text| > maxLength then SliceTo(text, maxLength) + "..." else text
  }

  // ---------------------------------------------------------------- format_time

  datatype Clock = Clock(hours: int, minutes: int, secs: int)

  /** The two `divmod(_, 60)` steps; Python's floor division agrees with Dafny's for a positive divisor. */
  function Breakdown(seconds: int): (d: Clock)
    ensures d.hours * 3600 + d.minutes * 60 + d.secs == seconds
    ensures 0 <= d.minutes < 60 && 0 <= d.secs < 60
    ensures seconds >= 0 ==> d.hours >= 0
  {
    var minutes, secs := seconds / 60, seconds % 60;
    Clock(minutes / 60, minutes % 60, secs)
  }

  /** `format_time`: "Xh Ym Zs" when there are hours, "Ym Zs" when there are minutes, else "Zs". */
  function FormatTime(seconds: int): (r: string)
    ensures |r| >= 2 && r[|r| - 1] == 's'
    ensures 'h' in r <==> Breakdown(seconds).hours > 0
    ensures 'm' in r <==> Breakdown(seconds).hours > 0 || Breakdown(seconds).minutes > 0
  {
    var d := Breakdown(seconds);
    var m, s := NatToString(d.minutes), NatToString(d.secs);
    assert 'h' !in m && 'h' !in s && 'm' !in s;
    if d.hours > 0 then
      var h := NatToString(d.hours);
      assert 'h' !in h && 'm' !in h;
      h + ("h " + (m + ("m " + (s + "s"))))
    else if d.minutes > 0 then
      m + ("m " + (s + "s"))
    else
      s + "s"
  }

  /** The unit letters of a formatted duration. */
  predicate IsUnit(u: char) {
    u == 'h' || u == 'm' || u == 's'
  }

  /** One "<count><unit>" part of a formatted duration. */
  datatype Part = Part(count: nat, unit: char)

  /** The parts `format_time` prints for a breakdown: "Xh Ym Zs", "Ym Zs" or "Zs". */
  function ClockParts(d: Clock): seq<Part>
    requires d.hours >= 0 && d.minutes >= 0 && d.secs >= 0
  {
    if d.hours > 0 then [Part(d.hours, 'h'), Part(d.minutes, 'm'), Part(d.secs, 's')]
    else if d.minutes > 0 then [Part(d.minutes, 'm'), Part(d.secs, 's')]
    else [Part(d.secs, 's')]
  }

  /** The seconds that `count` units of `u` stand for. */
  function PartSeconds(p: Part): nat {
    if p.unit == 'h' then 3600 * p.count else if p.unit == 'm' then 60 * p.count else if p.unit == 's' then p.count else 0
  }

  /** The seconds of all parts. */
  function TotalSeconds(parts: seq<Part>): nat {
    if parts == [] then 0 else PartSeconds(parts[0]) + TotalSeconds(parts[1..])
  }

  /** Reads text written as space-separated "<digits><unit>" parts back into its parts. */
  function ReadParts(s: string): Option<seq<Part>> {
    ReadPart(s, 0, false)
  }

  /** Reads a formatted duration back into seconds. */
  function ReadDuration(s: string): Option<int> {
    var parts := ReadParts(s);
    if parts.Some? then Some(TotalSeconds(parts.value)) else None
  }

  /**
   * Reads the rest of one part whose digits so far have the value `acc`
   * (`seen` once there was at least one), then the parts after it.
   */
  function ReadPart(s: string, acc: nat, seen: bool): Option<seq<Part>>
    decreases |s|
  {
    if s == [] then None
    else if IsDigit(s[0]) then ReadPart(s[1..], 10 * acc + DigitValue(s[0]), true)
    else if !seen || !IsUnit(s[0]) then None
    else if |s| == 1 then Some([Part(acc, s[0])])
    else if s[1] != ' ' then None
    else Prepend(Part(acc, s[0]), ReadPart(s[2..], 0, false))
  }

  /** Puts `p` before the parts of a reading that succeeded; a failed reading stays failed. */
  function Prepend(p: Part, reading: Option<seq<Part>>): Option<seq<Part>> {
    if reading.Some? then Some([p] + reading.value) else None
  }

  lemma {:induction false} ReadOverDigits(d: string, rest: string, acc: nat, seen: bool)
    requires AllDigits(d)
    requires rest != [] && !IsDigit(rest[0])
    ensures ReadPart(d + rest, acc, seen) == ReadPart(rest, ParseDigits(acc, d), seen || d != [])
  {
    if d == [] {
      assert d + rest == rest;
    } else {
      assert (d + rest)[1..] == d[1..] + rest;
      ReadOverDigits(d[1..], rest, 10 * acc + DigitValue(d[0]), true);
    }
  }

  /** The last part of a duration: digits and a unit letter. */
  lemma ReadLastPart(d: string, u: char)
    requires d != [] && AllDigits(d) && IsUnit(u)
    ensures ReadParts(d + [u]) == Some([Part(ParseNat(d), u)])
  {
    ReadOverDigits(d, [u], 0, false);
  }

  /** A part followed by a space and more parts comes first among them. */
  lemma ReadNextPart(d: string, u: char, more: string, parts: seq<Part>)
    requires d != [] && AllDigits(d) && IsUnit(u)
    requires ReadParts(more) == Some(parts)
    ensures ReadParts(d + ([u, ' '] + more)) == Some([Part(ParseNat(d), u)] + parts)
  {
    var rest := [u, ' '] + more;
    ReadOverDigits(d, rest, 0, false);
    assert rest[2..] == more;
  }

  /** Text in one of the three shapes of `format_time`'s output reads back as the numbers printed in it. */
  lemma ReadClockText(r: string, hs: string, ms: string, ss: string, hours: nat, minutes: nat, secs: nat)
    requires hs != [] && AllDigits(hs) && ParseNat(hs) == hours
    requires ms != [] && AllDigits(ms) && ParseNat(ms) == minutes
    requires ss != [] && AllDigits(ss) && ParseNat(ss) == secs
    requires hours > 0 ==> r == hs + ("h " + (ms + ("m " + (ss + "s"))))
    requires hours == 0 && minutes > 0 ==> r == ms + ("m " + (ss + "s"))
    requires hours == 0 && minutes == 0 ==> r == ss + "s"
    ensures ReadParts(r) == Some(ClockParts(Clock(hours, minutes, secs)))
  {
    var sPart := ss + "s";
    ReadLastPart(ss, 's');
    if hours > 0 || minutes > 0 {
      var mPart := ms + ("m " + sPart);
      assert "m " + sPart == ['m', ' '] + sPart;
      ReadNextPart(ms, 'm', sPart, [Part(secs, 's')]);
      assert [Part(minutes, 'm')] + [Part(secs, 's')] == [Part(minutes, 'm'), Part(secs, 's')];
      if hours > 0 {
        assert "h " + mPart == ['h', ' '] + mPart;
        assert [Part(hours, 'h')] + [Part(minutes, 'm'), Part(secs, 's')] == [Part(hours, 'h'), Part(minutes, 'm'), Part(secs, 's')];
        ReadNextPart(hs, 'h', mPart, [Part(minutes, 'm'), Part(secs, 's')]);
      }
    }
  }

  /**
   * For a non-negative duration the formatted text reads back as exactly the
   * hours, minutes and seconds of its breakdown, in the form `format_time`
   * picks for them.
   */
  lemma FormatTimeParts(seconds: int)
    requires seconds >= 0
    ensures ReadParts(FormatTime(seconds)) == Some(ClockParts(Breakdown(seconds)))
  {
    var d := Breakdown(seconds);
    var r := FormatTime(seconds);
    var h, m, s := NatToString(d.hours), NatToString(d.minutes), NatToString(d.secs);
    ParseNatToString(d.hours);
    ParseNatToString(d.minutes);
    ParseNatToString(d.secs);
    assert d.hours > 0 ==> r == h + ("h " + (m + ("m " + (s + "s"))));
    assert d.hours == 0 && d.minutes > 0 ==> r == m + ("m " + (s + "s"));
    assert d.hours == 0 && d.minutes == 0 ==> r == s + "s";
    ReadClockText(r, h, m, s, d.hours, d.minutes, d.secs);
  }

  /** For a non-negative duration the formatted text reads back as the same number of seconds. */
  lemma FormatTimeReadsBack(seconds: int)
    requires seconds >= 0
    ensures ReadDuration(FormatTime(seconds)) == Some(seconds)
  {
    FormatTimeParts(seconds);
    var d := Breakdown(seconds);
    ClockSeconds(d.hours, d.minutes, d.secs);
  }

  /** The parts printed for a breakdown add up to its seconds. */
  lemma ClockSeconds(hours: nat, minutes: nat, secs: nat)
    ensures TotalSeconds(ClockParts(Clock(hours, minutes, secs))) == 3600 * hours + 60 * minutes + secs
  {
    var s := [Part(secs, 's')];
    assert TotalSeconds(s) == secs by {
      assert s[1..] == [];
    }
    var ms := [Part(minutes, 'm')] + s;
    assert TotalSeconds(ms) == 60 * minutes + secs by {
      assert ms[1..] == s;
    }
    var hms := [Part(hours, 'h')] + ms;
    assert TotalSeconds(hms) == 3600 * hours + 60 * minutes + secs by {
      assert hms[1..] == ms;
    }
    assert ms == [Part(minutes, 'm'), Part(secs, 's')];
    assert hms == [Part(hours, 'h'), Part(minutes, 'm'), Part(secs, 's')];
  }

  // ---------------------------------------------------------------- sanitize_filename

  /** Characters that `re.sub(r"[^\w\s-]", "", ...)` deletes. */
  predicate IsInvalidFilenameChar(c: char) {
    !(IsWordChar(c) || IsSpace(c) || c == '-')
  }

  predicate IsDash(c: char) {
    c == '-'
  }

  /** What a sanitized filename may contain: lower-case word characters and '-'. */
  predicate IsSafeChar(c: char) {
    ('a' <= c <= 'z') || ('0' <= c <= '9') || c == '_' || c == '-'
  }

  /** `re.sub(r"\s+", "-", s)`: every maximal run of whitespace becomes one '-'. */
  function DashSpaceRuns(s: string): (r: string)
    ensures forall c :: c in r ==> c == '-' || (c in s && !IsSpace(c))
    decreases |s|
  {
    if s == [] then []
    else if IsSpace(s[0]) then
      var rest := DropWhile(s, IsSpace);
      assert forall c :: c in rest ==> c in s;
      "-" + DashSpaceRuns(rest)
    else [s[0]] + DashSpaceRuns(s[1..])
  }

  lemma {:induction false} DashSpaceRunsUnchanged(s: string)
    requires forall i :: 0 <= i < |s| ==> !IsSpace(s[i])
    ensures DashSpaceRuns(s) == s
  {
    if s != [] {
      DashSpaceRunsUnchanged(s[1..]);
    }
  }

  /** Whitespace turned into '-', and '-' itself. */
  predicate IsSpaceOrDash(c: char) {
    IsSpace(c) || c == '-'
  }

  /** `re.sub(r"\s+", "-", s)` on a word, a whitespace run and the text after the run: the run becomes one '-'. */
  lemma {:induction false} DashSpaceRunsRun(w: string, sp: string, rest: string)
    requires forall i :: 0 <= i < |w| ==> !IsSpace(w[i])
    requires sp != [] && forall i :: 0 <= i < |sp| ==> IsSpace(sp[i])
    requires rest == [] || !IsSpace(rest[0])
    ensures DashSpaceRuns(w + sp + rest) == w + "-" + DashSpaceRuns(rest)
    decreases |w|
  {
    if w == [] {
      assert w + sp + rest == sp + rest;
      DashSpaceRunsSpace(sp, rest);
    } else {
      var s := w + sp + rest;
      assert s[0] == w[0] && !IsSpace(s[0]);
      assert s[1..] == w[1..] + sp + rest;
      assert DashSpaceRuns(s) == [w[0]] + DashSpaceRuns(w[1..] + sp + rest);
      DashSpaceRunsRun(w[1..], sp, rest);
      assert w + "-" + DashSpaceRuns(rest) == [w[0]] + (w[1..] + "-" + DashSpaceRuns(rest));
    }
  }

  lemma DashSpaceRunsSpace(sp: string, rest: string)
    requires sp != [] && forall i :: 0 <= i < |sp| ==> IsSpace(sp[i])
    requires rest == [] || !IsSpace(rest[0])
    ensures DashSpaceRuns(sp + rest) == "-" + DashSpaceRuns(rest)
  {
    assert (sp + rest)[0] == sp[0];
    DropWhileRun(sp, rest, IsSpace);
  }

  /** Dashing the whitespace runs keeps every other character in order: only spaces and dashes differ. */
  lemma {:induction false} DashSpaceRunsDashes(s: string)
    ensures Remove(DashSpaceRuns(s), IsDash) == Remove(s, IsSpaceOrDash)
    decreases |s|
  {
    if s != [] {
      if IsSpace(s[0]) {
        var rest := DropWhile(s, IsSpace);
        var k := |s| - |rest|;
        DashSpaceRunsDashes(rest);
        RemoveAppend("-", DashSpaceRuns(rest), IsDash);
        assert s == s[..k] + rest;
        RemoveAppend(s[..k], rest, IsSpaceOrDash);
        RemoveNone(s[..k], IsSpaceOrDash);
      } else {
        DashSpaceRunsDashes(s[1..]);
        RemoveAppend([s[0]], DashSpaceRuns(s[1..]), IsDash);
      }
    }
  }

  /**
   * The sanitized name keeps every word character of the lowered name, in
   * order: apart from its dashes it is exactly those characters.
   */
  lemma SanitizeKeepsWordChars(filename: string)
    ensures Remove(SanitizeFilename(filename), IsDash) == Remove(Lower(filename), NotWordChar)
  {
    var lowered := Lower(filename);
    var kept := Remove(lowered, IsInvalidFilenameChar);
    var dashed := DashSpaceRuns(kept);
    assert SanitizeFilename(filename) == Trim(dashed, IsDash);
    assert Remove(Trim(dashed, IsDash), IsDash) == Remove(dashed, IsDash) by {
      RemoveTrim(dashed, IsDash);
    }
    assert Remove(dashed, IsDash) == Remove(kept, IsSpaceOrDash) by {
      DashSpaceRunsDashes(kept);
    }
    KeptWordChars(lowered);
  }

  /** Dropping the invalid characters and then whitespace and '-' leaves the word characters. */
  lemma KeptWordChars(s: string)
    ensures Remove(Remove(s, IsInvalidFilenameChar), IsSpaceOrDash) == Remove(s, NotWordChar)
  {
    assert forall c :: NotWordChar(c) == (IsInvalidFilenameChar(c) || IsSpaceOrDash(c));
    RemoveRemove(s, IsInvalidFilenameChar, IsSpaceOrDash, NotWordChar);
  }

  /** `sanitize_filename`: lower-case, drop invalid characters, dash the whitespace runs, strip '-' at both ends. */
  function SanitizeFilename(filename: string): (r: string)
    ensures forall i :: 0 <= i < |r| ==> IsSafeChar(r[i])
    ensures r == [] || (r[0] != '-' && r[|r| - 1] != '-')
  {
    var kept := Remove(Lower(filename), IsInvalidFilenameChar);
    KeptCharsAreLowerValid(filename);
    var dashed := DashSpaceRuns(kept);
    var r := Trim(dashed, IsDash);
    SliceKeepsSafe(dashed, r, LeadingCount(dashed, IsDash));
    r
  }

  lemma KeptCharsAreLowerValid(filename: string)
    ensures forall c :: c in Remove(Lower(filename), IsInvalidFilenameChar) ==> !IsUpper(c) && !IsInvalidFilenameChar(c)
  {
    var lowered := Lower(filename);
    forall c | c in Remove(lowered, IsInvalidFilenameChar) ensures !IsUpper(c) && !IsInvalidFilenameChar(c) {
      RemoveKeepsFrom(lowered, IsInvalidFilenameChar, c);
    }
  }

  lemma SliceKeepsSafe(s: string, r: string, lead: nat)
    requires forall c :: c in s ==> IsSafeChar(c)
    requires lead + |r| <= |s| && r == s[lead..lead + |r|]
    ensures forall i :: 0 <= i < |r| ==> IsSafeChar(r[i])
  {
    forall i | 0 <= i < |r| ensures IsSafeChar(r[i]) {
      assert r[i] == s[lead + i];
      assert s[lead + i] in s;
    }
  }

  lemma {:induction false} RemoveKeepsFrom(s: string, p: char -> bool, c: char)
    requires c in Remove(s, p)
    ensures c in s
  {
    if s != [] && c != s[0] {
      RemoveKeepsFrom(s[1..], p, c);
    }
  }

  /** Sanitizing a sanitized name changes nothing. */
  lemma SanitizeFilenameIdempotent(filename: string)
    ensures SanitizeFilename(SanitizeFilename(filename)) == SanitizeFilename(filename)
  {
    SanitizeSafe(SanitizeFilename(filename));
  }

  /** A name of safe characters that neither starts nor ends with '-' is its own sanitized form. */
  lemma SanitizeSafe(r: string)
    requires forall i :: 0 <= i < |r| ==> IsSafeChar(r[i])
    requires r == [] || (r[0] != '-' && r[|r| - 1] != '-')
    ensures SanitizeFilename(r) == r
  {
    assert Lower(r) == r by { LowerOfLower(r); }
    assert Remove(r, IsInvalidFilenameChar) == r by { RemoveUnchanged(r, IsInvalidFilenameChar); }
    assert DashSpaceRuns(r) == r by { DashSpaceRunsUnchanged(r); }
    TrimUnchanged(r, IsDash);
  }

  // ---------------------------------------------------------------- count_words

  /** `count_words`: `len(text.split())`, which is the number of places where a word starts. */
  function CountWords(text: string): (n: nat)
    ensures n == CountRunStarts(text, IsSpace, true)
    ensures n == 0 <==> forall i :: 0 <= i < |text| ==> IsSpace(text[i])
  {
    RunsCount(text, IsSpace);
    var t := DropWhile(text, IsSpace);
    assert t != [] ==> !IsSpace(text[|text| - |t|]);
    |Split(text)|
  }

  // ---------------------------------------------------------------- generate_filename

  /** `generate_filename`: at most 50 characters of the sanitized title, a '.', then the extension. */
  function GenerateFilename(title: string, extension: string): (r: string)
    ensures var stem := SanitizeFilename(title);
            var k := if |stem| <= 50 then |stem| else 50;
            && |r| == k + 1 + |extension|
            && r[..k] == stem[..k]
            && (forall i :: 0 <= i < k ==> IsSafeChar(r[i]) && r[i] != '.')
            && r[k] == '.'
            && r[k + 1..] == extension
  {
    WithExtension(SanitizeFilename(title), extension)
  }

  /** `f"{stem[:50]}.{extension}"` for a stem of safe characters. */
  function WithExtension(stem: string, extension: string): (r: string)
    requires forall i :: 0 <= i < |stem| ==> IsSafeChar(stem[i])
    ensures var k := if |stem| <= 50 then |stem| else 50;
            && |r| == k + 1 + |extension|
            && r[..k] == stem[..k]
            && (forall i :: 0 <= i < k ==> IsSafeChar(r[i]) && r[i] != '.')
            && r[k] == '.'
            && r[k + 1..] == extension
  {
    var prefix := SliceTo(stem, 50);
    var r := prefix + ("." + extension);
    assert r[..|prefix|] == prefix;
    assert r[|prefix| + 1..] == extension;
    assert forall i :: 0 <= i < |prefix| ==> r[i] == stem[i];
    r
  }

  // ---------------------------------------------------------------- extract_keywords

  const StopWords: set<string> :=
    {"the", "a", "an", "and", "or", "but", "in", "on", "at", "to", "for", "of", "with", "by"}

  /** `re.findall(r'\w+', text.lower())`. */
  function FindWords(text: string): seq<string> {
    Runs(Lower(text), NotWordChar)
  }

  /** The words the counting loop counts: everything but the stop words, in text order. */
  function Counted(words: seq<string>, stopWords: set<string>): seq<string> {
    if words == [] then []
    else
      var last := words[|words| - 1];
      Counted(words[..|words| - 1], stopWords) + (if last in stopWords then [] else [last])
  }

  /** The counted words are exactly the words of the text that are not stop words. */
  lemma {:induction false} CountedMembers(words: seq<string>, stopWords: set<string>)
    ensures forall w :: w in Counted(words, stopWords) <==> w in words && w !in stopWords
  {
    if words != [] {
      var init := words[..|words| - 1];
      CountedMembers(init, stopWords);
      assert words == init + [words[|words| - 1]];
    }
  }

  /** Position of the first occurrence of `w` in `ws`. */
  function FirstIndex(ws: seq<string>, w: string): (k: nat)
    requires w in ws
    ensures k < |ws| && ws[k] == w && w !in ws[..k]
  {
    var init := ws[..|ws| - 1];
    if w in init then
      var k := FirstIndex(init, w);
      assert ws[..k] == init[..k];
      k
    else
      assert ws == init + [w];
      |ws| - 1
  }

  /** The keys of the counting dict, in insertion order: each word once, in order of first occurrence. */
  function FirstOccurrences(ws: seq<string>): (r: seq<string>)
    ensures forall w :: w in r <==> w in ws
  {
    if ws == [] then []
    else
      var init := ws[..|ws| - 1];
      var last := ws[|ws| - 1];
      var prev := FirstOccurrences(init);
      if last in prev then prev else prev + [last]
  }

  /** The keys come in the order in which the words first occur. */
  lemma {:induction false} FirstOccurrencesOrdered(ws: seq<string>)
    ensures forall i, j :: 0 <= i < j < |FirstOccurrences(ws)| ==>
              FirstIndex(ws, FirstOccurrences(ws)[i]) < FirstIndex(ws, FirstOccurrences(ws)[j])
  {
    if ws != [] {
      var init := ws[..|ws| - 1];
      var last := ws[|ws| - 1];
      FirstOccurrencesOrdered(init);
      assert forall w :: w in init ==> FirstIndex(ws, w) == FirstIndex(init, w);
      var prev := FirstOccurrences(init);
      var r := FirstOccurrences(ws);
      if last !in prev {
        assert r == prev + [last];
      } else {
        assert r == prev;
      }
      forall i, j | 0 <= i < j < |r| ensures FirstIndex(ws, r[i]) < FirstIndex(ws, r[j]) {
        assert r[i] == prev[i] && r[i] in init;
        assert FirstIndex(ws, r[i]) == FirstIndex(init, r[i]);
        if j == |prev| {
          assert r[j] == last && last !in init;
          assert FirstIndex(ws, last) == |ws| - 1;
        } else {
          assert j < |prev|;
          assert r[j] == prev[j] && r[j] in init;
          assert FirstIndex(ws, r[j]) == FirstIndex(init, r[j]);
          assert FirstIndex(init, prev[i]) < FirstIndex(init, prev[j]);
        }
      }
    }
  }

  /** The counting dict's values: occurrences of each counted word. */
  function Tally(ws: seq<string>): map<string, nat> {
    if ws == [] then map[]
    else
      var counts := Tally(ws[..|ws| - 1]);
      var w := ws[|ws| - 1];
      counts[w := CountOf(counts, w) + 1]
  }

  /** `dict.get(w, 0)`. */
  function CountOf(counts: map<string, nat>, w: string): nat {
    if w in counts then counts[w] else 0
  }

  /** The tally's keys are the counted words, and it holds how often each occurs. */
  lemma {:induction false} TallyCounts(ws: seq<string>)
    ensures forall w :: w in Tally(ws) <==> w in ws
    ensures forall w :: CountOf(Tally(ws), w) == Count(ws, w)
  {
    if ws != [] {
      var init := ws[..|ws| - 1];
      var last := ws[|ws| - 1];
      TallyCounts(init);
      assert ws == init + [last];
      assert multiset(ws) == multiset(init) + multiset{last};
      forall w ensures CountOf(Tally(ws), w) == Count(ws, w) {
        if w == last {
          assert CountOf(Tally(ws), w) == CountOf(Tally(init), w) + 1;
        } else {
          assert CountOf(Tally(ws), w) == CountOf(Tally(init), w);
        }
      }
    }
  }

  /** Inserts `w` before the first entry whose count is not larger (the stable, descending insertion step). */
  function InsertByCount(counts: map<string, nat>, w: string, sorted: seq<string>): (r: seq<string>)
    ensures multiset(r) == multiset(sorted) + multiset{w}
  {
    if sorted == [] then [w]
    else if CountOf(counts, w) >= CountOf(counts, sorted[0]) then [w] + sorted
    else
      assert sorted == [sorted[0]] + sorted[1..];
      [sorted[0]] + InsertByCount(counts, w, sorted[1..])
  }

  /** `sorted(word_counts.items(), key=count, reverse=True)` on the dict's keys: a stable sort by descending count. */
  function SortByCount(counts: map<string, nat>, ws: seq<string>): (r: seq<string>)
    ensures multiset(r) == multiset(ws)
  {
    if ws == [] then []
    else
      assert ws == [ws[0]] + ws[1..];
      InsertByCount(counts, ws[0], SortByCount(counts, ws[1..]))
  }

  /** The first `numKeywords` distinct counted words, ranked by count. */
  function TopWords(counted: seq<string>, numKeywords: int): seq<string> {
    SliceTo(SortByCount(Tally(counted), FirstOccurrences(counted)), numKeywords)
  }

  /** The words of `text` that `extract_keywords` counts. */
  function CountedWords(text: string): seq<string> {
    Counted(FindWords(text), StopWords)
  }

  /** The specification of `extract_keywords`. */
  function Keywords(text: string, numKeywords: int): seq<string> {
    TopWords(CountedWords(text), numKeywords)
  }

  /**
   * The counting loop of `extract_keywords`: fills the dict in place, its keys
   * in insertion order in `order`.
   */
  method CountKeywords(words: seq<string>, stopWords: set<string>) returns (order: seq<string>, counts: map<string, nat>)
    ensures order == FirstOccurrences(Counted(words, stopWords))
    ensures counts == Tally(Counted(words, stopWords))
  {
    order, counts := [], map[];
    ghost var seen: seq<string> := [];
    assert words[..0] == [];
    for i := 0 to |words|
      invariant seen == Counted(words[..i], stopWords)
      invariant order == FirstOccurrences(seen)
      invariant counts == Tally(seen)
    {
      var word := words[i];
      assert words[..i + 1] == words[..i] + [word];
      CountedSnoc(words[..i], word, stopWords);
      if word !in stopWords {
        TallyCounts(seen);
        FirstOccurrencesSnoc(seen, word);
        TallySnoc(seen, word);
        if word !in counts {
          order := order + [word];
        }
        counts := counts[word := CountOf(counts, word) + 1];
        seen := seen + [word];
      }
    }
    assert words[..|words|] == words;
  }

  /** `extract_keywords`: count, sort the dict's keys by count, keep the first `numKeywords`. */
  method ExtractKeywords(text: string, numKeywords: int := 5) returns (keywords: seq<string>)
    ensures keywords == Keywords(text, numKeywords)
  {
    var order, counts := CountKeywords(FindWords(text), StopWords);
    var ranked := SortByCount(counts, order);
    keywords := SliceTo(ranked, numKeywords);
  }

  lemma CountedSnoc(ws: seq<string>, w: string, stopWords: set<string>)
    ensures Counted(ws + [w], stopWords) == Counted(ws, stopWords) + (if w in stopWords then [] else [w])
  {
    assert (ws + [w])[..|ws|] == ws;
  }

  lemma FirstOccurrencesSnoc(ws: seq<string>, w: string)
    ensures FirstOccurrences(ws + [w]) == if w in ws then FirstOccurrences(ws) else FirstOccurrences(ws) + [w]
  {
    assert (ws + [w])[..|ws|] == ws;
  }

  lemma TallySnoc(ws: seq<string>, w: string)
    ensures Tally(ws + [w]) == Tally(ws)[w := CountOf(Tally(ws), w) + 1]
  {
    assert (ws + [w])[..|ws|] == ws;
  }

  function Count(counted: seq<string>, w: string): nat {
    multiset(counted)[w]
  }

  /** `a` comes before `b` in the ranking: more occurrences, or as many and an earlier first occurrence. */
  ghost predicate Outranks(counted: seq<string>, a: string, b: string) {
    a in counted && b in counted &&
    (Count(counted, a) > Count(counted, b) ||
     (Count(counted, a) == Count(counted, b) && FirstIndex(counted, a) < FirstIndex(counted, b)))
  }

  ghost predicate Ranked(counted: seq<string>, s: seq<string>) {
    forall i, j :: 0 <= i < j < |s| ==> Outranks(counted, s[i], s[j])
  }

  lemma {:induction false} InsertByCountRanked(counted: seq<string>, w: string, sorted: seq<string>)
    requires w in counted && forall x :: x in sorted ==> x in counted
    requires Ranked(counted, sorted)
    requires forall x :: x in sorted ==> FirstIndex(counted, w) < FirstIndex(counted, x)
    ensures Ranked(counted, InsertByCount(Tally(counted), w, sorted))
  {
    var counts := Tally(counted);
    if sorted != [] {
      assert forall x :: CountOf(counts, x) == Count(counted, x) by { TallyCounts(counted); }
      if CountOf(counts, w) >= CountOf(counts, sorted[0]) {
        forall j | 0 <= j < |sorted| ensures Outranks(counted, w, sorted[j]) {
          if j > 0 {
            assert Outranks(counted, sorted[0], sorted[j]);
          }
        }
        RankedCons(counted, w, sorted);
      } else {
        var tail := InsertByCount(counts, w, sorted[1..]);
        RankedTail(counted, sorted);
        InsertByCountRanked(counted, w, sorted[1..]);
        forall j | 0 <= j < |tail| ensures Outranks(counted, sorted[0], tail[j]) {
          assert tail[j] in multiset(tail);
          if tail[j] != w {
            assert tail[j] in sorted[1..];
            var k :| 0 <= k < |sorted[1..]| && sorted[1..][k] == tail[j];
            assert Outranks(counted, sorted[0], sorted[k + 1]);
          }
        }
        RankedCons(counted, sorted[0], tail);
      }
    }
  }

  lemma RankedCons(counted: seq<string>, w: string, s: seq<string>)
    requires Ranked(counted, s)
    requires forall j :: 0 <= j < |s| ==> Outranks(counted, w, s[j])
    ensures Ranked(counted, [w] + s)
  {
    var r := [w] + s;
    forall i, j | 0 <= i < j < |r| ensures Outranks(counted, r[i], r[j]) {
      assert r[j] == s[j - 1];
      if i > 0 {
        assert r[i] == s[i - 1];
      }
    }
  }

  lemma RankedTail(counted: seq<string>, s: seq<string>)
    requires s != [] && Ranked(counted, s)
    ensures Ranked(counted, s[1..])
  {
    assert forall i :: 0 <= i < |s| - 1 ==> s[1..][i] == s[i + 1];
  }

  lemma {:induction false} SortByCountRanked(counted: seq<string>, ws: seq<string>)
    requires forall x :: x in ws ==> x in counted
    requires forall i, j :: 0 <= i < j < |ws| ==> FirstIndex(counted, ws[i]) < FirstIndex(counted, ws[j])
    ensures Ranked(counted, SortByCount(Tally(counted), ws))
  {
    if ws != [] {
      var tail := ws[1..];
      assert forall x :: x in tail ==> x in ws;
      SortByCountRanked(counted, tail);
      var sortedTail := SortByCount(Tally(counted), tail);
      forall x | x in sortedTail ensures x in counted && FirstIndex(counted, ws[0]) < FirstIndex(counted, x) {
        assert x in multiset(sortedTail);
        assert x in tail;
        var k :| 0 <= k < |tail| && tail[k] == x;
        assert ws[k + 1] == x;
      }
      InsertByCountRanked(counted, ws[0], sortedTail);
    }
  }

  /** In a ranking, every entry of a prefix outranks each word that comes after the prefix. */
  lemma RankedOutranksLater(counted: seq<string>, ranked: seq<string>, n: nat, w: string)
    requires Ranked(counted, ranked)
    requires n <= |ranked| && w in ranked && w !in ranked[..n]
    ensures forall i :: 0 <= i < n ==> Outranks(counted, ranked[i], w)
  {
    assert ranked == ranked[..n] + ranked[n..];
    assert w in ranked[n..];
    var k :| 0 <= k < |ranked[n..]| && ranked[n..][k] == w;
    assert ranked[n + k] == w;
  }

  /**
   * The ranking cut after `numKeywords`: distinct counted words, ordered by
   * count (ties by first occurrence), as many as asked for, and no word left
   * out ranks above a word kept.
   */
  lemma TopWordsRanked(counted: seq<string>, numKeywords: int, r: seq<string>)
    requires r == TopWords(counted, numKeywords)
    ensures forall w :: w in r ==> w in counted
    ensures Ranked(counted, r)
    ensures forall w :: w in counted && w !in r ==> forall i :: 0 <= i < |r| ==> Outranks(counted, r[i], w)
    ensures numKeywords >= 0 ==> |r| == Min(numKeywords, |FirstOccurrences(counted)|)
  {
    var order := FirstOccurrences(counted);
    var ranked := SortByCount(Tally(counted), order);
    FirstOccurrencesOrdered(counted);
    SortByCountRanked(counted, order);
    assert r == ranked[..|r|];
    assert |ranked| == |order| by {
      assert |multiset(ranked)| == |multiset(order)|;
    }
    forall w | w in r ensures w in counted {
      assert w in multiset(ranked);
      assert w in order;
    }
    forall i, j | 0 <= i < j < |r| ensures Outranks(counted, r[i], r[j]) {
      assert r[i] == ranked[i] && r[j] == ranked[j];
    }
    forall w | w in counted && w !in r ensures forall i :: 0 <= i < |r| ==> Outranks(counted, r[i], w) {
      assert w in multiset(ranked);
      RankedOutranksLater(counted, ranked, |r|, w);
    }
  }

  /**
   * What `extract_keywords` promises: distinct non-stop words of the text,
   * ordered by count (ties by first occurrence), as many as asked for, and no
   * counted word left out ranks above a word kept.
   */
  lemma KeywordsRanked(text: string, numKeywords: int, keywords: seq<string>)
    requires keywords == Keywords(text, numKeywords)
    ensures forall w :: w in keywords ==> w in FindWords(text) && w !in StopWords
    ensures forall i, j :: 0 <= i < j < |keywords| ==> keywords[i] != keywords[j]
    ensures forall i, j :: 0 <= i < j < |keywords| ==> Outranks(CountedWords(text), keywords[i], keywords[j])
    ensures forall w :: w in CountedWords(text) && w !in keywords ==>
              forall i :: 0 <= i < |keywords| ==> Outranks(CountedWords(text), keywords[i], w)
    ensures numKeywords >= 0 ==> |keywords| == Min(numKeywords, |FirstOccurrences(CountedWords(text))|)
  {
    CountedMembers(FindWords(text), StopWords);
    TopWordsRanked(CountedWords(text), numKeywords, keywords);
  }
}
