/**
 * Character classes and string operations of Python's `str` and `re` that the
 * application relies on, restricted to ASCII: whitespace (`str.isspace`, `\s`),
 * word characters (`\w`), `str.lower`, `str.split()`, `str.split(sep)`,
 * `sep.join`, `str.strip` and slicing `s[:n]`.
 */
module Text {

  /** `str.isspace()` / regex `\s` on ASCII: space, \t, \n, \x0b, \x0c, \r and \x1c-\x1f. */
  predicate IsSpace(c: char) {
    c == ' ' || c == '\t' || c == '\n' || c == '\r' || c == '\U{0B}' || c == '\U{0C}'
    || ('\U{1C}' <= c <= '\U{1F}')
  }

  /** Regex `\w` on ASCII. */
  predicate IsWordChar(c: char) {
    ('a' <= c <= 'z') || ('A' <= c <= 'Z') || ('0' <= c <= '9') || c == '_'
  }

  predicate NotWordChar(c: char) {
    !IsWordChar(c)
  }

  predicate IsUpper(c: char) {
    'A' <= c <= 'Z'
  }

  function ToLower(c: char): (d: char)
    ensures !IsUpper(d)
    ensures IsWordChar(d) == IsWordChar(c) && IsSpace(d) == IsSpace(c)
    ensures !IsUpper(c) ==> d == c
  {
    if IsUpper(c) then (c as int + 32) as char else c
  }

  /** `str.lower()` on ASCII. */
  function Lower(s: string): (r: string)
    ensures |r| == |s|
    ensures forall i :: 0 <= i < |s| ==> r[i] == ToLower(s[i])
  {
    seq(|s|, i requires 0 <= i < |s| => ToLower(s[i]))
  }

  lemma LowerOfLower(s: string)
    requires forall i :: 0 <= i < |s| ==> !IsUpper(s[i])
    ensures Lower(s) == s
  {
  }

  function Min(a: int, b: int): int {
    if a <= b then a else b
  }

  /** `s[:n]`: a prefix of `s`; a negative `n` counts from the end, as in Python. */
  function SliceTo<T>(s: seq<T>, n: int): (r: seq<T>)
    ensures n >= 0 ==> |r| == if n <= |s| then n else |s|
    ensures n < 0 ==> |r| == if -n <= |s| then |s| + n else 0
    ensures r == s[..|r|]
  {
    if n >= 0 then (if n <= |s| then s[..n] else s)
    else (if -n <= |s| then s[..|s| + n] else [])
  }

  /** The longest suffix of `s` that does not start with a character satisfying `p`. */
  function DropWhile(s: string, p: char -> bool): (r: string)
    ensures |r| <= |s| && r == s[|s| - |r|..]
    ensures forall i :: 0 <= i < |s| - |r| ==> p(s[i])
    ensures r == [] || !p(r[0])
  {
    if s != [] && p(s[0]) then DropWhile(s[1..], p) else s
  }

  /** The longest prefix of `s` none of whose characters satisfies `p`. */
  function TakeUntil(s: string, p: char -> bool): (r: string)
    ensures |r| <= |s| && r == s[..|r|]
    ensures forall i :: 0 <= i < |r| ==> !p(r[i])
    ensures |r| == |s| || p(s[|r|])
  {
    if s != [] && !p(s[0]) then [s[0]] + TakeUntil(s[1..], p) else []
  }

  /** The longest prefix of `s` whose last character does not satisfy `p`. */
  function DropWhileEnd(s: string, p: char -> bool): (r: string)
    ensures |r| <= |s| && r == s[..|r|]
    ensures forall i :: |r| <= i < |s| ==> p(s[i])
    ensures r == [] || !p(r[|r| - 1])
  {
    if s != [] && p(s[|s| - 1]) then DropWhileEnd(s[..|s| - 1], p) else s
  }

  /** How many leading characters of `s` satisfy `p`. */
  function LeadingCount(s: string, p: char -> bool): (n: nat)
    ensures n <= |s|
  {
    |s| - |DropWhile(s, p)|
  }

  /**
   * `s.strip(chars)`: the middle slice of `s` left after dropping the leading
   * and trailing characters satisfying `p`.
   */
  function Trim(s: string, p: char -> bool): (r: string)
    ensures r == [] || (!p(r[0]) && !p(r[|r| - 1]))
    ensures LeadingCount(s, p) + |r| <= |s|
    ensures r == s[LeadingCount(s, p)..LeadingCount(s, p) + |r|]
    ensures forall k :: 0 <= k < LeadingCount(s, p) ==> p(s[k])
    ensures forall k :: LeadingCount(s, p) + |r| <= k < |s| ==> p(s[k])
  {
    var t := DropWhile(s, p);
    var r := DropWhileEnd(t, p);
    TrimSlice(s, p, t, r);
    r
  }

  lemma TakeSnoc<T>(s: seq<T>, i: nat)
    requires i < |s|
    ensures s[..i + 1] == s[..i] + [s[i]]
  {
  }

  lemma TakeAll<T>(s: seq<T>)
    ensures s[..|s|] == s
  {
  }

  lemma SliceOfSlice<T>(s: seq<T>, lead: nat, n: nat)
    requires lead + n <= |s|
    ensures s[lead..][..n] == s[lead..lead + n]
  {
  }

  lemma TrimSlice(s: string, p: char -> bool, t: string, r: string)
    requires |t| <= |s| && t == s[|s| - |t|..]
    requires |r| <= |t| && r == t[..|r|]
    requires forall i :: |r| <= i < |t| ==> p(t[i])
    ensures r == s[|s| - |t|..|s| - |t| + |r|]
    ensures forall k :: |s| - |t| + |r| <= k < |s| ==> p(s[k])
  {
    var lead := |s| - |t|;
    SliceOfSlice(s, lead, |r|);
    forall k | lead + |r| <= k < |s| ensures p(s[k]) {
      assert s[k] == t[k - lead];
    }
  }

  lemma TrimUnchanged(s: string, p: char -> bool)
    requires s == [] || (!p(s[0]) && !p(s[|s| - 1]))
    ensures Trim(s, p) == s
  {
  }

  /** `str.strip()`: the text loses only whitespace, and only at its ends. */
  function Strip(s: string): (r: string)
    ensures r == [] || (!IsSpace(r[0]) && !IsSpace(r[|r| - 1]))
    ensures Remove(r, IsSpace) == Remove(s, IsSpace)
  {
    RemoveTrim(s, IsSpace);
    Trim(s, IsSpace)
  }

  /** Keeps the characters of `s` that do not satisfy `p`, in order. */
  function Remove(s: string, p: char -> bool): (r: string)
    ensures |r| <= |s|
    ensures forall i :: 0 <= i < |r| ==> !p(r[i])
  {
    if s == [] then [] else (if p(s[0]) then [] else [s[0]]) + Remove(s[1..], p)
  }

  lemma {:induction false} RemoveAppend(a: string, b: string, p: char -> bool)
    ensures Remove(a + b, p) == Remove(a, p) + Remove(b, p)
  {
    if a != [] {
      assert (a + b)[0] == a[0];
      assert (a + b)[1..] == a[1..] + b;
      RemoveAppend(a[1..], b, p);
      var head := if p(a[0]) then [] else [a[0]];
      calc {
        Remove(a + b, p);
        head + Remove(a[1..] + b, p);
        head + (Remove(a[1..], p) + Remove(b, p));
        (head + Remove(a[1..], p)) + Remove(b, p);
      }
    } else {
      assert a + b == b;
    }
  }

  lemma {:induction false} RemoveUnchanged(s: string, p: char -> bool)
    requires forall i :: 0 <= i < |s| ==> !p(s[i])
    ensures Remove(s, p) == s
  {
    if s != [] {
      RemoveUnchanged(s[1..], p);
    }
  }

  lemma {:induction false} RemoveNone(s: string, p: char -> bool)
    requires forall i :: 0 <= i < |s| ==> p(s[i])
    ensures Remove(s, p) == []
  {
    if s != [] {
      RemoveNone(s[1..], p);
    }
  }

  /** Removing by `p` and then by `q` is removing by `pq`, when `pq` is their union. */
  lemma {:induction false} RemoveRemove(s: string, p: char -> bool, q: char -> bool, pq: char -> bool)
    requires forall c :: pq(c) == (p(c) || q(c))
    ensures Remove(Remove(s, p), q) == Remove(s, pq)
  {
    if s != [] {
      RemoveRemove(s[1..], p, q, pq);
      var head := if p(s[0]) then [] else [s[0]];
      RemoveAppend(head, Remove(s[1..], p), q);
    }
  }

  /** Trimming `p` at both ends changes nothing of what is left once `p` is removed. */
  lemma RemoveTrim(s: string, p: char -> bool)
    ensures Remove(Trim(s, p), p) == Remove(s, p)
  {
    var lead := LeadingCount(s, p);
    RemoveBetween(s, lead, lead + |Trim(s, p)|, p);
  }

  /** Removing `p` from a slice whose surroundings all satisfy `p` removes it from the whole. */
  lemma RemoveBetween(s: string, lead: nat, end: nat, p: char -> bool)
    requires lead <= end <= |s|
    requires forall k :: 0 <= k < lead ==> p(s[k])
    requires forall k :: end <= k < |s| ==> p(s[k])
    ensures Remove(s[lead..end], p) == Remove(s, p)
  {
    var a, r, b := s[..lead], s[lead..end], s[end..];
    assert s == a + r + b;
    RemoveAppend(a + r, b, p);
    RemoveAppend(a, r, p);
    RemoveNone(a, p);
    RemoveNone(b, p);
  }

  /** Dropping the leading run of `p` from a run followed by text that does not start with `p`. */
  lemma {:induction false} DropWhileRun(run: string, rest: string, p: char -> bool)
    requires forall i :: 0 <= i < |run| ==> p(run[i])
    requires rest == [] || !p(rest[0])
    ensures DropWhile(run + rest, p) == rest
  {
    if run == [] {
      assert run + rest == rest;
    } else {
      assert (run + rest)[1..] == run[1..] + rest;
      DropWhileRun(run[1..], rest, p);
    }
  }

  lemma SliceSplit(t: string, k: nat)
    requires k <= |t|
    ensures t == t[..k] + t[k..]
  {
  }

  /** A maximal run: non-empty, with no character satisfying the separator test `p`. */
  predicate IsRun(w: string, p: char -> bool) {
    |w| > 0 && forall i :: 0 <= i < |w| ==> !p(w[i])
  }

  /**
   * The maximal runs of characters not satisfying `p`, in order: `str.split()`
   * when `p` is whitespace, `re.findall(r'\w+', s)` when `p` is "not a word character".
   */
  function Runs(s: string, p: char -> bool): (r: seq<string>)
    ensures forall w :: w in r ==> IsRun(w, p)
    decreases |s|
  {
    var t := DropWhile(s, p);
    if t == [] then []
    else
      var w := TakeUntil(t, p);
      assert !p(t[0]);
      assert IsRun(w, p);
      [w] + Runs(t[|w|..], p)
  }

  /** `str.split()` with no separator: the whitespace-separated words. */
  function Split(s: string): seq<string> {
    Runs(s, IsSpace)
  }

  function Concat(ws: seq<string>): string {
    if ws == [] then [] else ws[0] + Concat(ws[1..])
  }

  /** `sep.join(ws)`. */
  function Join(ws: seq<string>, sep: string): string {
    if ws == [] then []
    else if |ws| == 1 then ws[0]
    else ws[0] + sep + Join(ws[1..], sep)
  }

  /** Independent scanner: counts the positions where a run starts (a non-separator after a separator or at the start). */
  function CountRunStarts(s: string, p: char -> bool, afterSeparator: bool): nat {
    if s == [] then 0
    else (if afterSeparator && !p(s[0]) then 1 else 0) + CountRunStarts(s[1..], p, p(s[0]))
  }

  lemma {:induction false} TakeUntilOfRun(w: string, rest: string, p: char -> bool)
    requires forall i :: 0 <= i < |w| ==> !p(w[i])
    requires rest == [] || p(rest[0])
    ensures TakeUntil(w + rest, p) == w
  {
    if w != [] {
      assert (w + rest)[1..] == w[1..] + rest;
      TakeUntilOfRun(w[1..], rest, p);
    }
  }

  lemma {:induction false} RunsSkipSeparators(s: string, p: char -> bool)
    ensures Runs(s, p) == Runs(DropWhile(s, p), p)
    ensures CountRunStarts(s, p, true) == CountRunStarts(DropWhile(s, p), p, true)
    ensures Remove(s, p) == Remove(DropWhile(s, p), p)
  {
    if s != [] && p(s[0]) {
      RunsSkipSeparators(s[1..], p);
    }
  }

  lemma {:induction false} CountAcrossRun(w: string, rest: string, p: char -> bool)
    requires forall i :: 0 <= i < |w| ==> !p(w[i])
    ensures CountRunStarts(w + rest, p, false) == CountRunStarts(rest, p, false)
  {
    if w != [] {
      assert (w + rest)[1..] == w[1..] + rest;
      CountAcrossRun(w[1..], rest, p);
    } else {
      assert w + rest == rest;
    }
  }

  /** The number of maximal runs is the number of run starts the scanner sees. */
  lemma {:induction false} RunsCount(s: string, p: char -> bool)
    ensures |Runs(s, p)| == CountRunStarts(s, p, true)
    decreases |s|
  {
    var t := DropWhile(s, p);
    RunsSkipSeparators(s, p);
    if t != [] {
      var w := TakeUntil(t, p);
      var rest := t[|w|..];
      RunsFirst(t, p);
      CountFirst(t, w, rest, p);
      RunsCount(rest, p);
    }
  }

  /** A string that starts with a non-separator: its first run, then the runs of what follows. */
  lemma RunsFirst(t: string, p: char -> bool)
    requires t != [] && !p(t[0])
    ensures Runs(t, p) == [TakeUntil(t, p)] + Runs(t[|TakeUntil(t, p)|..], p)
  {
    assert DropWhile(t, p) == t;
  }

  lemma CountFirst(t: string, w: string, rest: string, p: char -> bool)
    requires t != [] && !p(t[0])
    requires w == TakeUntil(t, p) && rest == t[|w|..]
    ensures CountRunStarts(t, p, true) == 1 + CountRunStarts(rest, p, true)
  {
    SliceSplit(t, |w|);
    assert t[1..] == w[1..] + rest;
    CountAcrossRun(w[1..], rest, p);
    assert CountRunStarts(rest, p, false) == CountRunStarts(rest, p, true);
  }

  /** Concatenating the runs loses exactly the separators. */
  lemma {:induction false} RunsContent(s: string, p: char -> bool)
    ensures Concat(Runs(s, p)) == Remove(s, p)
    decreases |s|
  {
    var t := DropWhile(s, p);
    if t != [] {
      var w := TakeUntil(t, p);
      var rest := t[|w|..];
      assert !p(t[0]);
      SliceSplit(t, |w|);
      RunsContent(rest, p);
      RemoveAppend(w, rest, p);
      RemoveUnchanged(w, p);
      assert Runs(t, p) == [w] + Runs(rest, p);
      assert Concat(Runs(t, p)) == w + Concat(Runs(rest, p));
    }
    RunsSkipSeparators(s, p);
  }

  /** A whitespace-free string with at least one character is one run of itself. */
  lemma RunsOfRunAndRest(w: string, rest: string, p: char -> bool)
    requires IsRun(w, p)
    requires rest == [] || p(rest[0])
    ensures Runs(w + rest, p) == [w] + Runs(rest, p)
  {
    assert DropWhile(w + rest, p) == w + rest;
    TakeUntilOfRun(w, rest, p);
    assert (w + rest)[|w|..] == rest;
  }

  lemma RunsSkipSeparator(c: char, rest: string, p: char -> bool)
    requires p(c)
    ensures Runs([c] + rest, p) == Runs(rest, p)
  {
    DropWhileSkip(c, rest, p);
    RunsOfSameDrop([c] + rest, rest, p);
  }

  lemma DropWhileSkip(c: char, rest: string, p: char -> bool)
    requires p(c)
    ensures DropWhile([c] + rest, p) == DropWhile(rest, p)
  {
    assert ([c] + rest)[1..] == rest;
  }

  /** `Runs` only looks at what is left after the leading separators. */
  lemma RunsOfSameDrop(s: string, s': string, p: char -> bool)
    requires DropWhile(s, p) == DropWhile(s', p)
    ensures Runs(s, p) == Runs(s', p)
  {
  }

  lemma RunsOfRunThenSeparator(w: string, c: char, rest: string, p: char -> bool)
    requires IsRun(w, p) && p(c)
    ensures Runs(w + ([c] + rest), p) == [w] + Runs(rest, p)
  {
    RunsOfRunAndRest(w, [c] + rest, p);
    RunsSkipSeparator(c, rest, p);
  }

  lemma RunsOfSingleRun(w: string, p: char -> bool)
    requires IsRun(w, p)
    ensures Runs(w, p) == [w]
  {
    RunsOfRunAndRest(w, [], p);
    assert w + [] == w;
    assert Runs([], p) == [];
  }

  lemma JoinCons(ws: seq<string>, sep: string)
    requires |ws| >= 2
    ensures Join(ws, sep) == ws[0] + (sep + Join(ws[1..], sep))
  {
  }

  /** Splitting what `sep.join` produced gives the words back (round trip). */
  lemma {:induction false} RunsOfJoin(ws: seq<string>, c: char, p: char -> bool)
    requires p(c)
    requires forall i :: 0 <= i < |ws| ==> IsRun(ws[i], p)
    ensures Runs(Join(ws, [c]), p) == ws
  {
    if ws == [] {
    } else if |ws| == 1 {
      RunsOfSingleRun(ws[0], p);
    } else {
      var tail := Join(ws[1..], [c]);
      assert Join(ws, [c]) == ws[0] + ([c] + tail) by { JoinCons(ws, [c]); }
      assert Runs(tail, p) == ws[1..] by { RunsOfJoin(ws[1..], c, p); }
      RunsOfRunThenSeparator(ws[0], c, tail, p);
      HeadTail(ws);
    }
  }

  lemma HeadTail<T>(s: seq<T>)
    requires s != []
    ensures [s[0]] + s[1..] == s
  {
  }

  lemma SplitOfJoin(ws: seq<string>)
    requires forall i :: 0 <= i < |ws| ==> IsRun(ws[i], IsSpace)
    ensures Split(Join(ws, " ")) == ws
  {
    RunsOfJoin(ws, ' ', IsSpace);
  }

  /** `s.split(sep)` for a one-character separator: keeps empty parts. */
  function SplitOn(s: string, sep: char): (parts: seq<string>)
    ensures |parts| >= 1
    ensures forall i :: 0 <= i < |parts| ==> sep !in parts[i]
  {
    if s == [] then [[]]
    else
      var rest := SplitOn(s[1..], sep);
      if s[0] == sep then [[]] + rest else [[s[0]] + rest[0]] + rest[1..]
  }

  /** Rejoining the parts of `s.split(sep)` with `sep` gives `s` back. */
  lemma {:induction false} JoinSplitOn(s: string, sep: char)
    ensures Join(SplitOn(s, sep), [sep]) == s
  {
    if s != [] {
      var rest := SplitOn(s[1..], sep);
      var parts := SplitOn(s, sep);
      JoinSplitOn(s[1..], sep);
      if s[0] == sep {
        assert parts == [[]] + rest;
        assert Join(parts, [sep]) == [] + [sep] + Join(rest, [sep]);
      } else if |rest| == 1 {
        assert parts == [[s[0]] + rest[0]];
      } else {
        assert parts[1..] == rest[1..];
        assert Join(rest, [sep]) == rest[0] + [sep] + Join(rest[1..], [sep]);
        assert Join(parts, [sep]) == [s[0]] + rest[0] + [sep] + Join(rest[1..], [sep]);
      }
      assert s == [s[0]] + s[1..];
    }
  }

  /** `s.split(sep)` has one more part than `s` has separators. */
  lemma {:induction false} SplitOnCount(s: string, sep: char)
    ensures |SplitOn(s, sep)| == multiset(s)[sep] + 1
  {
    if s != [] {
      SplitOnCount(s[1..], sep);
      assert s == [s[0]] + s[1..];
      assert multiset(s) == multiset{s[0]} + multiset(s[1..]);
    }
  }

  /** Rejoining the first `m` parts of `s.split(sep)` with `sep` gives a prefix of `s`. */
  lemma {:induction false} JoinPartsIsPrefix(s: string, sep: char, m: nat)
    requires 1 <= m <= |SplitOn(s, sep)|
    ensures Join(SplitOn(s, sep)[..m], [sep]) <= s
  {
    if s != [] {
      var rest := SplitOn(s[1..], sep);
      var parts := SplitOn(s, sep);
      if s[0] == sep {
        if m == 1 {
          assert parts[..m] == [[]];
        } else {
          JoinPartsIsPrefix(s[1..], sep, m - 1);
          assert parts[..m] == [[]] + rest[..m - 1];
          assert Join(parts[..m], [sep]) == [sep] + Join(rest[..m - 1], [sep]);
        }
      } else {
        JoinPartsIsPrefix(s[1..], sep, m);
        if m == 1 {
          assert parts[..m] == [[s[0]] + rest[0]];
          assert Join(rest[..1], [sep]) == rest[0];
        } else {
          assert parts[..m][1..] == rest[..m][1..];
          assert Join(rest[..m], [sep]) == rest[0] + [sep] + Join(rest[..m][1..], [sep]);
          assert Join(parts[..m], [sep]) == [s[0]] + rest[0] + [sep] + Join(rest[..m][1..], [sep]);
        }
      }
    }
  }
}
