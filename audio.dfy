/**
 * The text side of audio_generation.py: packing the words of a story into
 * chunks short enough for the speech service, and guessing the language of a
 * text from the Unicode blocks its characters fall in.
 */
module Audio {
  import opened Text

  // ---------------------------------------------------------------- split_text

  /** The words of the chunks, one chunk after the other. */
  function ChunkWords(chunks: seq<string>): seq<string> {
    if chunks == [] then [] else ChunkWords(chunks[..|chunks| - 1]) + Split(chunks[|chunks| - 1])
  }

  lemma ChunkWordsSnoc(chunks: seq<string>, c: string)
    ensures ChunkWords(chunks + [c]) == ChunkWords(chunks) + Split(c)
  {
    assert (chunks + [c])[..|chunks|] == chunks;
  }

  /**
   * What `split_text` promises of its chunks for the word list `words`:
   * no word is lost, added or reordered; each chunk is its words joined by
   * single spaces; only a chunk of at most one word is over the limit; a
   * chunk without words can only come first, when the first word alone is
   * over the limit, and then it does come first; and a chunk is closed only
   * when the next word would not have fitted.
   */
  ghost predicate Chunking(words: seq<string>, maxLength: int, chunks: seq<string>) {
    && ChunkWords(chunks) == words
    && (chunks == [] <==> words == [])
    && (forall k :: 0 <= k < |chunks| ==> chunks[k] == Join(Split(chunks[k]), " "))
    && (forall k :: 0 <= k < |chunks| ==> |chunks[k]| <= maxLength || |Split(chunks[k])| <= 1)
    && (forall k :: 0 <= k < |chunks| && Split(chunks[k]) == [] ==> k == 0 && |words| > 0 && |words[0]| > maxLength)
    && (|words| > 0 && |words[0]| > maxLength ==> chunks != [] && chunks[0] == "")
    && (forall k :: 0 < k < |chunks| ==>
          Split(chunks[k]) != [] && |Join(Split(chunks[k - 1]) + [Split(chunks[k])[0]], " ")| > maxLength)
  }

  /**
   * `split_text`: walks the words of `text.split()`, adding each to the current
   * chunk while the joined chunk stays within `maxLength`, and otherwise
   * closing the chunk and starting a new one with the word.
   */
  method SplitText(text: string, maxLength: int := 5000) returns (chunks: seq<string>)
    ensures Chunking(Split(text), maxLength, chunks)
  {
    var words := Split(text);
    chunks := [];
    var current: seq<string> := [];
    ghost var groups: seq<seq<string>> := [];
    for i := 0 to |words|
      invariant Packing(words, i, maxLength, chunks, groups, current)
    {
      var word := words[i];
      if |Join(current + [word], " ")| <= maxLength {
        PackWord(words, i, maxLength, chunks, groups, current);
        current := current + [word];
      } else {
        CloseChunk(words, i, maxLength, chunks, groups, current);
        chunks := chunks + [Join(current, " ")];
        groups := groups + [current];
        current := [word];
      }
    }
    if current != [] {
      FlushChunk(words, maxLength, chunks, groups, current);
      chunks := chunks + [Join(current, " ")];
    } else {
      NothingToFlush(words, maxLength, chunks, groups);
    }
  }

  /** The loop state of `split_text` after the first `i` words; `groups` are the words of the closed chunks. */
  ghost predicate Packing(words: seq<string>, i: int, maxLength: int, chunks: seq<string>, groups: seq<seq<string>>, current: seq<string>) {
    && PackedWords(words, i, chunks, current)
    && PackedChunks(words, maxLength, chunks, groups, current)
    && EmptyFirst(words, maxLength, groups, current)
  }

  /** Once a first word over the limit has been taken, the empty chunk closed before it comes first. */
  ghost predicate EmptyFirst(words: seq<string>, maxLength: int, groups: seq<seq<string>>, current: seq<string>) {
    current != [] && |words| > 0 && |words[0]| > maxLength ==> groups != [] && groups[0] == []
  }

  /** The closed chunks and the current chunk hold the first `i` words, in order. */
  ghost predicate PackedWords(words: seq<string>, i: int, chunks: seq<string>, current: seq<string>) {
    && 0 <= i <= |words|
    && (forall w :: w in words ==> IsRun(w, IsSpace))
    && ChunkWords(chunks) + current == words[..i]
    && (i > 0 ==> current != [])
  }

  /** The closed chunks keep the promises of `Chunking`, and the last one was closed only for want of room. */
  ghost predicate PackedChunks(words: seq<string>, maxLength: int, chunks: seq<string>, groups: seq<seq<string>>, current: seq<string>) {
    && |groups| == |chunks|
    && (forall k :: 0 <= k < |chunks| ==> chunks[k] == Join(groups[k], " ") && Split(chunks[k]) == groups[k])
    && (forall k :: 0 <= k < |chunks| ==> |chunks[k]| <= maxLength || |groups[k]| <= 1)
    && (|current| <= 1 || |Join(current, " ")| <= maxLength)
    && (forall k :: 0 <= k < |groups| && groups[k] == [] ==> k == 0 && |words| > 0 && |words[0]| > maxLength)
    && (forall k :: 0 < k < |groups| ==> groups[k] != [] && |Join(groups[k - 1] + [groups[k][0]], " ")| > maxLength)
    && (groups != [] ==> current != [] && |Join(groups[|groups| - 1] + [current[0]], " ")| > maxLength)
  }

  lemma PackWord(words: seq<string>, i: int, maxLength: int, chunks: seq<string>, groups: seq<seq<string>>, current: seq<string>)
    requires Packing(words, i, maxLength, chunks, groups, current) && i < |words|
    requires |Join(current + [words[i]], " ")| <= maxLength
    ensures Packing(words, i + 1, maxLength, chunks, groups, current + [words[i]])
  {
    PackWordKeepsWords(words, i, chunks, current);
    PackWordKeepsChunks(words, maxLength, chunks, groups, current, words[i]);
    PackWordKeepsFirst(words, i, maxLength, groups, current);
  }

  /** Only a word that fits is added to an empty current chunk, so it is not an over-long first word. */
  lemma PackWordKeepsFirst(words: seq<string>, i: int, maxLength: int, groups: seq<seq<string>>, current: seq<string>)
    requires EmptyFirst(words, maxLength, groups, current)
    requires 0 <= i < |words| && (current == [] ==> i == 0)
    requires |Join(current + [words[i]], " ")| <= maxLength
    ensures EmptyFirst(words, maxLength, groups, current + [words[i]])
  {
    if current == [] {
      assert current + [words[i]] == [words[0]];
      assert Join([words[0]], " ") == words[0];
    }
  }

  lemma PackWordKeepsWords(words: seq<string>, i: int, chunks: seq<string>, current: seq<string>)
    requires PackedWords(words, i, chunks, current) && i < |words|
    ensures PackedWords(words, i + 1, chunks, current + [words[i]])
  {
    TakeSnoc(words, i);
    AppendSnoc(ChunkWords(chunks), current, words[i]);
  }

  lemma PackWordKeepsChunks(words: seq<string>, maxLength: int, chunks: seq<string>, groups: seq<seq<string>>, current: seq<string>, w: string)
    requires PackedChunks(words, maxLength, chunks, groups, current)
    requires |Join(current + [w], " ")| <= maxLength
    ensures PackedChunks(words, maxLength, chunks, groups, current + [w])
  {
    if current != [] {
      assert (current + [w])[0] == current[0];
    }
  }

  lemma AppendSnoc<T>(a: seq<T>, b: seq<T>, x: T)
    ensures a + (b + [x]) == (a + b) + [x]
  {
  }

  /** The words of the current chunk are words of the text, so splitting the joined chunk gives them back. */
  lemma JoinCurrent(words: seq<string>, i: int, chunks: seq<string>, current: seq<string>)
    requires PackedWords(words, i, chunks, current)
    ensures Split(Join(current, " ")) == current
    ensures ChunkWords(chunks + [Join(current, " ")]) == words[..i]
  {
    SuffixIn(ChunkWords(chunks), current, words, i);
    SplitOfJoin(current);
    ChunkWordsSnoc(chunks, Join(current, " "));
  }

  /** The elements of the tail of a prefix of `s` are elements of `s`. */
  lemma SuffixIn<T>(a: seq<T>, b: seq<T>, s: seq<T>, i: int)
    requires 0 <= i <= |s| && a + b == s[..i]
    ensures forall k :: 0 <= k < |b| ==> b[k] in s
  {
    forall k | 0 <= k < |b| ensures b[k] in s {
      assert b[k] == (a + b)[|a| + k];
      assert s[..i][|a| + k] == s[|a| + k];
    }
  }

  lemma CloseChunk(words: seq<string>, i: int, maxLength: int, chunks: seq<string>, groups: seq<seq<string>>, current: seq<string>)
    requires Packing(words, i, maxLength, chunks, groups, current) && i < |words|
    requires |Join(current + [words[i]], " ")| > maxLength
    ensures Packing(words, i + 1, maxLength, chunks + [Join(current, " ")], groups + [current], [words[i]])
  {
    JoinCurrent(words, i, chunks, current);
    assert PackedWords(words, i + 1, chunks + [Join(current, " ")], [words[i]]) by {
      TakeSnoc(words, i);
    }
    assert current == [] ==> |words| > 0 && |words[0]| > maxLength by {
      if current == [] {
        assert current + [words[i]] == [words[0]];
        assert Join([words[0]], " ") == words[0];
      }
    }
    CloseChunks(words, maxLength, chunks, groups, current, words[i]);
    CloseKeepsFirst(words, maxLength, groups, current, words[i]);
  }

  /**
   * Closing keeps the empty first chunk first; with no chunk closed yet, an
   * over-long first word leaves the current chunk empty, and that empty
   * chunk is the one closed.
   */
  lemma CloseKeepsFirst(words: seq<string>, maxLength: int, groups: seq<seq<string>>, current: seq<string>, w: string)
    requires EmptyFirst(words, maxLength, groups, current)
    requires groups != [] ==> current != []
    ensures EmptyFirst(words, maxLength, groups + [current], [w])
  {
    if groups != [] {
      assert (groups + [current])[0] == groups[0];
    }
  }

  /** Closing `current` because `w` does not fit keeps the chunk promises, with `[w]` as the new current chunk. */
  lemma CloseChunks(words: seq<string>, maxLength: int, chunks: seq<string>, groups: seq<seq<string>>, current: seq<string>, w: string)
    requires PackedChunks(words, maxLength, chunks, groups, current)
    requires Split(Join(current, " ")) == current
    requires |Join(current + [w], " ")| > maxLength
    requires current == [] ==> |words| > 0 && |words[0]| > maxLength
    ensures PackedChunks(words, maxLength, chunks + [Join(current, " ")], groups + [current], [w])
  {
    Closed(words, maxLength, chunks, groups, current);
    var groups' := groups + [current];
    assert groups'[|groups'| - 1] == current;
  }

  /** The closed-chunk facts of `PackedChunks` carry over when `current` is closed as one more chunk. */
  lemma Closed(words: seq<string>, maxLength: int, chunks: seq<string>, groups: seq<seq<string>>, current: seq<string>)
    requires PackedChunks(words, maxLength, chunks, groups, current)
    requires Split(Join(current, " ")) == current
    requires current == [] ==> |words| > 0 && |words[0]| > maxLength
    ensures forall k :: 0 <= k < |chunks| + 1 ==>
      (chunks + [Join(current, " ")])[k] == Join((groups + [current])[k], " ") &&
      Split((chunks + [Join(current, " ")])[k]) == (groups + [current])[k]
    ensures forall k :: 0 <= k < |chunks| + 1 ==>
      |(chunks + [Join(current, " ")])[k]| <= maxLength || |(groups + [current])[k]| <= 1
    ensures forall k :: 0 <= k < |groups| + 1 && (groups + [current])[k] == [] ==> k == 0 && |words| > 0 && |words[0]| > maxLength
    ensures forall k :: 0 < k < |groups| + 1 ==>
      (groups + [current])[k] != [] && |Join((groups + [current])[k - 1] + [(groups + [current])[k][0]], " ")| > maxLength
  {
    ClosedRows(maxLength, chunks, groups, current);
    ClosedEmpty(words, maxLength, groups, current);
    ClosedGreedy(maxLength, groups, current);
  }

  lemma ClosedRows(maxLength: int, chunks: seq<string>, groups: seq<seq<string>>, current: seq<string>)
    requires |groups| == |chunks|
    requires forall k :: 0 <= k < |chunks| ==> chunks[k] == Join(groups[k], " ") && Split(chunks[k]) == groups[k]
    requires forall k :: 0 <= k < |chunks| ==> |chunks[k]| <= maxLength || |groups[k]| <= 1
    requires Split(Join(current, " ")) == current
    requires |current| <= 1 || |Join(current, " ")| <= maxLength
    ensures forall k :: 0 <= k < |chunks| + 1 ==>
      (chunks + [Join(current, " ")])[k] == Join((groups + [current])[k], " ") &&
      Split((chunks + [Join(current, " ")])[k]) == (groups + [current])[k]
    ensures forall k :: 0 <= k < |chunks| + 1 ==>
      |(chunks + [Join(current, " ")])[k]| <= maxLength || |(groups + [current])[k]| <= 1
  {
    var chunk := Join(current, " ");
    forall k | 0 <= k < |chunks| + 1
      ensures (chunks + [chunk])[k] == Join((groups + [current])[k], " ")
      ensures Split((chunks + [chunk])[k]) == (groups + [current])[k]
      ensures |(chunks + [chunk])[k]| <= maxLength || |(groups + [current])[k]| <= 1
    {
      SnocAt(chunks, chunk, k);
      SnocAt(groups, current, k);
    }
  }

  /** Indexing a sequence with one more element at its end. */
  lemma SnocAt<T>(s: seq<T>, x: T, k: nat)
    requires k <= |s|
    ensures (s + [x])[k] == if k < |s| then s[k] else x
  {
  }

  lemma ClosedEmpty(words: seq<string>, maxLength: int, groups: seq<seq<string>>, current: seq<string>)
    requires forall k :: 0 <= k < |groups| && groups[k] == [] ==> k == 0 && |words| > 0 && |words[0]| > maxLength
    requires current == [] ==> groups == [] && |words| > 0 && |words[0]| > maxLength
    ensures forall k :: 0 <= k < |groups| + 1 && (groups + [current])[k] == [] ==> k == 0 && |words| > 0 && |words[0]| > maxLength
  {
    var groups' := groups + [current];
    forall k | 0 <= k < |groups'| && groups'[k] == [] ensures k == 0 && |words| > 0 && |words[0]| > maxLength {
      if k < |groups| {
        assert groups'[k] == groups[k];
      }
    }
  }

  lemma ClosedGreedy(maxLength: int, groups: seq<seq<string>>, current: seq<string>)
    requires forall k :: 0 < k < |groups| ==> groups[k] != [] && |Join(groups[k - 1] + [groups[k][0]], " ")| > maxLength
    requires groups != [] ==> current != [] && |Join(groups[|groups| - 1] + [current[0]], " ")| > maxLength
    ensures forall k :: 0 < k < |groups| + 1 ==>
      (groups + [current])[k] != [] && |Join((groups + [current])[k - 1] + [(groups + [current])[k][0]], " ")| > maxLength
  {
    var groups' := groups + [current];
    forall k | 0 < k < |groups'|
      ensures groups'[k] != [] && |Join(groups'[k - 1] + [groups'[k][0]], " ")| > maxLength
    {
      assert groups'[k - 1] == groups[k - 1];
      if k < |groups| {
        assert groups'[k] == groups[k];
      }
    }
  }

  lemma FlushChunk(words: seq<string>, maxLength: int, chunks: seq<string>, groups: seq<seq<string>>, current: seq<string>)
    requires Packing(words, |words|, maxLength, chunks, groups, current) && current != []
    ensures Chunking(words, maxLength, chunks + [Join(current, " ")])
  {
    JoinCurrent(words, |words|, chunks, current);
    TakeAll(words);
    Closed(words, maxLength, chunks, groups, current);
    assert |words[0]| > maxLength ==> (groups + [current])[0] == [] by {
      if |words[0]| > maxLength {
        assert (groups + [current])[0] == groups[0];
      }
    }
    ClosedChunking(words, maxLength, chunks + [Join(current, " ")], groups + [current]);
  }

  lemma NothingToFlush(words: seq<string>, maxLength: int, chunks: seq<string>, groups: seq<seq<string>>)
    requires Packing(words, |words|, maxLength, chunks, groups, [])
    ensures Chunking(words, maxLength, chunks)
  {
    assert words == [] && chunks == [];
  }

  /** Once every chunk is closed, the loop state gives the promised chunking. */
  lemma ClosedChunking(words: seq<string>, maxLength: int, chunks: seq<string>, groups: seq<seq<string>>)
    requires |groups| == |chunks| && chunks != [] && words != []
    requires forall k :: 0 <= k < |chunks| ==> chunks[k] == Join(groups[k], " ") && Split(chunks[k]) == groups[k]
    requires ChunkWords(chunks) == words
    requires forall k :: 0 <= k < |chunks| ==> |chunks[k]| <= maxLength || |groups[k]| <= 1
    requires forall k :: 0 <= k < |groups| && groups[k] == [] ==> k == 0 && |words| > 0 && |words[0]| > maxLength
    requires forall k :: 0 < k < |groups| ==> groups[k] != [] && |Join(groups[k - 1] + [groups[k][0]], " ")| > maxLength
    requires |words[0]| > maxLength ==> groups[0] == []
    ensures Chunking(words, maxLength, chunks)
  {
  }

  // ---------------------------------------------------------------- detect_language

  /** `any(lo <= char <= hi for char in text)`. */
  function AnyIn(text: string, lo: char, hi: char): (b: bool)
    ensures b <==> exists i :: 0 <= i < |text| && lo <= text[i] <= hi
  {
    if text == [] then false
    else
      assert forall i :: 1 <= i < |text| ==> text[i] == text[1..][i - 1];
      (lo <= text[0] <= hi) || AnyIn(text[1..], lo, hi)
  }

  predicate HasHan(text: string) {
    exists i :: 0 <= i < |text| && '一' <= text[i] <= '鿿'
  }

  predicate HasKana(text: string) {
    exists i :: 0 <= i < |text| && '぀' <= text[i] <= 'ヿ'
  }

  predicate HasHangul(text: string) {
    exists i :: 0 <= i < |text| && '가' <= text[i] <= '힣'
  }

  /**
   * `detect_language`: Chinese if any character is a CJK unified ideograph,
   * else Japanese if any is kana, else Korean if any is a Hangul syllable,
   * else English.
   */
  function DetectLanguage(text: string): (lang: string)
    ensures lang == "zh-cn" <==> HasHan(text)
    ensures lang == "ja" <==> !HasHan(text) && HasKana(text)
    ensures lang == "ko" <==> !HasHan(text) && !HasKana(text) && HasHangul(text)
    ensures lang == "en" <==> !HasHan(text) && !HasKana(text) && !HasHangul(text)
  {
    if AnyIn(text, '一', '鿿') then "zh-cn"
    else if AnyIn(text, '぀', 'ヿ') then "ja"
    else if AnyIn(text, '가', '힣') then "ko"
    else "en"
  }
}
