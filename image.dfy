/**
 * The pure part of image_generation.py: shaping the story into an image
 * prompt, the DALL-E size whitelist, and the choice of image generator by
 * model name. The generators themselves are remote services and are not
 * modelled; `Generator` records which one would be called, and with what.
 */
module Image {
  import opened Wrappers
  import opened Text
  import opened Decimal

  const PromptPrefix := "Create an image that captures the essence of this story: "

  // ---------------------------------------------------------------- preprocess_prompt

  /** `'. '.join(story_content.split('.')[:3])`. */
  function ShortenStory(story: string): string {
    Join(SliceTo(SplitOn(story, '.'), 3), ". ")
  }

  /** The prompt before the length check. */
  function FullPrompt(story: string): string {
    PromptPrefix + ShortenStory(story)
  }

  /**
   * `preprocess_prompt`: a prompt that fits is returned whole; a longer one is
   * cut with Python's `[:max_length-3]` and gets "...". Below a bound of 3
   * the slice counts from the end, and the result is longer than the bound.
   */
  function PreprocessPrompt(story: string, maxLength: int := 1000): (r: string)
    ensures |FullPrompt(story)| <= maxLength ==> r == FullPrompt(story)
    ensures |FullPrompt(story)| > maxLength ==>
      |r| >= 3 && r[|r| - 3..] == "..." && r[..|r| - 3] <= FullPrompt(story)
    ensures |FullPrompt(story)| > maxLength && maxLength >= 3 ==>
      |r| == maxLength && r[..maxLength - 3] == FullPrompt(story)[..maxLength - 3]
    ensures |FullPrompt(story)| > maxLength && maxLength < 3 ==>
      |r| == (if 3 - maxLength <= |FullPrompt(story)| then |FullPrompt(story)| + maxLength - 3 else 0) + 3
    ensures maxLength >= 3 ==> |r| <= maxLength
    ensures maxLength >= |PromptPrefix| + 3 ==> PromptPrefix <= r
  {
    var prompt := FullPrompt(story);
    if |prompt| > maxLength then SliceTo(prompt, maxLength - 3) + "..." else prompt
  }

  /** Every '.' of `s` followed by a space: what rejoining with ". " instead of "." does. */
  function SpaceAfterDots(s: string): string {
    if s == [] then [] else (if s[0] == '.' then ". " else [s[0]]) + SpaceAfterDots(s[1..])
  }

  lemma {:induction false} SpaceAfterDotsAppend(a: string, b: string)
    ensures SpaceAfterDots(a + b) == SpaceAfterDots(a) + SpaceAfterDots(b)
    decreases |a|
  {
    if a != [] {
      var head := if a[0] == '.' then ". " else [a[0]];
      assert (a + b)[0] == a[0];
      assert (a + b)[1..] == a[1..] + b;
      SpaceAfterDotsAppend(a[1..], b);
      assert SpaceAfterDots(a + b) == head + SpaceAfterDots(a[1..] + b);
      assert SpaceAfterDots(a) == head + SpaceAfterDots(a[1..]);
    } else {
      assert a + b == b;
    }
  }

  lemma {:induction false} SpaceAfterDotsNone(s: string)
    requires '.' !in s
    ensures SpaceAfterDots(s) == s
    decreases |s|
  {
    if s != [] {
      SpaceAfterDotsNone(s[1..]);
      assert s == [s[0]] + s[1..];
    }
  }

  lemma SpacedStep(w: string, dotted: string, spaced: string)
    requires '.' !in w && spaced == SpaceAfterDots(dotted)
    ensures w + (". " + spaced) == SpaceAfterDots(w + ("." + dotted))
  {
    SpaceAfterDotsNone(w);
    SpaceAfterDotsAppend(w, "." + dotted);
    SpaceAfterDotsAppend(".", dotted);
  }

  /** Joining dot-free parts with ". " is joining them with "." and then spacing the dots. */
  lemma {:induction false} JoinSpaced(ws: seq<string>)
    requires forall i :: 0 <= i < |ws| ==> '.' !in ws[i]
    ensures Join(ws, ". ") == SpaceAfterDots(Join(ws, "."))
  {
    if |ws| == 1 {
      SpaceAfterDotsNone(ws[0]);
    } else if |ws| >= 2 {
      JoinSpaced(ws[1..]);
      JoinCons(ws, ".");
      JoinCons(ws, ". ");
      SpacedStep(ws[0], Join(ws[1..], "."), Join(ws[1..], ". "));
    }
  }

  /** The part of the story the prompt keeps: everything before its third '.'. */
  function KeptStory(story: string): string {
    Join(SliceTo(SplitOn(story, '.'), 3), ".")
  }

  /**
   * The shortened story is a prefix of the story (up to its third '.', when
   * there is one), made of the first min(3, dots + 1) segments, with a space
   * added after each kept '.'.
   */
  lemma ShortenStoryKeepsPrefix(story: string)
    ensures KeptStory(story) <= story
    ensures |SliceTo(SplitOn(story, '.'), 3)| == Min(3, multiset(story)['.'] + 1)
    ensures ShortenStory(story) == SpaceAfterDots(KeptStory(story))
  {
    var parts := SplitOn(story, '.');
    var kept := SliceTo(parts, 3);
    SplitOnCount(story, '.');
    JoinPartsIsPrefix(story, '.', |kept|);
    JoinSpaced(kept);
  }

  // ---------------------------------------------------------------- sizes

  /** The sizes DALL-E 3 accepts. */
  const DalleSizes: seq<string> := ["1024x1024", "1792x1024", "1024x1792"]

  /** The whitelist step of `generate_story_image_dalle`: any other size becomes "1024x1024". */
  function NormalizeDalleSize(size: string): (r: string)
    ensures r in DalleSizes
    ensures size in DalleSizes ==> r == size
    ensures size !in DalleSizes ==> r == "1024x1024"
  {
    if size in DalleSizes then size else "1024x1024"
  }

  /** `f"{size[0]}x{size[1]}"`. */
  function SizeString(width: int, height: int): string {
    IntToString(width) + "x" + IntToString(height)
  }

  predicate IsIntText(s: string) {
    |s| >= 1 && forall i :: 0 <= i < |s| ==> IsDigit(s[i]) || (i == 0 && s[i] == '-')
  }

  /** Reads "WxH" back into its two integers. */
  function ParseSize(s: string): Option<(int, int)> {
    var parts := SplitOn(s, 'x');
    if |parts| == 2 && IsIntText(parts[0]) && IsIntText(parts[1]) then
      Some((ParseInt(parts[0]), ParseInt(parts[1])))
    else
      None
  }

  lemma {:induction false} SplitOnWithout(s: string, sep: char)
    requires sep !in s
    ensures SplitOn(s, sep) == [s]
    decreases |s|
  {
    if s != [] {
      SplitOnWithout(s[1..], sep);
      assert s == [s[0]] + s[1..];
    }
  }

  lemma {:induction false} SplitOnAt(a: string, sep: char, b: string)
    requires sep !in a
    ensures SplitOn(a + [sep] + b, sep) == [a] + SplitOn(b, sep)
    decreases |a|
  {
    if a != [] {
      assert (a + [sep] + b)[1..] == a[1..] + [sep] + b;
      SplitOnAt(a[1..], sep, b);
      assert a == [a[0]] + a[1..];
    }
  }

  /** The size string names exactly the requested width and height. */
  lemma SizeStringParses(width: int, height: int)
    ensures ParseSize(SizeString(width, height)) == Some((width, height))
  {
    var w, h := IntToString(width), IntToString(height);
    assert 'x' !in w && 'x' !in h;
    SplitOnAt(w, 'x', h);
    SplitOnWithout(h, 'x');
    ParseIntToString(width);
    ParseIntToString(height);
  }

  lemma SizeStringInjective(w1: int, h1: int, w2: int, h2: int)
    requires SizeString(w1, h1) == SizeString(w2, h2)
    ensures w1 == w2 && h1 == h2
  {
    SizeStringParses(w1, h1);
    SizeStringParses(w2, h2);
  }

  /** The size strings of the three supported tuples and of the default. */
  lemma SupportedSizeStrings()
    ensures SizeString(1024, 1024) == "1024x1024"
    ensures SizeString(1792, 1024) == "1792x1024"
    ensures SizeString(1024, 1792) == "1024x1792"
    ensures SizeString(512, 512) == "512x512"
  {
    Numeral1024();
    Numeral1792();
    Numeral512();
  }

  lemma Numeral1024()
    ensures IntToString(1024) == "1024"
  {
    assert NatToString(10) == "10";
    assert NatToString(102) == "102";
  }

  lemma Numeral1792()
    ensures IntToString(1792) == "1792"
  {
    assert NatToString(17) == "17";
    assert NatToString(179) == "179";
  }

  lemma Numeral512()
    ensures IntToString(512) == "512"
  {
    assert NatToString(51) == "51";
  }

  /**
   * A size tuple reaches DALL-E unchanged iff it is one of the three
   * supported ones; any other, the (512, 512) default included, becomes
   * "1024x1024".
   */
  lemma DalleSizeKept(width: int, height: int)
    ensures NormalizeDalleSize(SizeString(width, height)) == SizeString(width, height) <==>
      (width, height) in [(1024, 1024), (1792, 1024), (1024, 1792)]
    ensures NormalizeDalleSize(SizeString(512, 512)) == "1024x1024"
  {
    SupportedSizeStrings();
    var s := SizeString(width, height);
    if s == "1024x1024" {
      SizeStringInjective(width, height, 1024, 1024);
    } else if s == "1792x1024" {
      SizeStringInjective(width, height, 1792, 1024);
    } else if s == "1024x1792" {
      SizeStringInjective(width, height, 1024, 1792);
    }
  }

  // ---------------------------------------------------------------- generate_story_image

  /** The generator `generate_story_image` calls, with its arguments; `Unknown` is the error path. */
  datatype Generator =
    | Dalle(prompt: string, size: string)
    | StableDiffusion(prompt: string, modelId: string, width: int, height: int)
    | Unknown(model: string)

  /**
   * `generate_story_image`: "dalle" goes to DALL-E with a whitelisted "WxH"
   * size, a model id under "stabilityai/" or "runwayml/" goes to Stable
   * Diffusion, anything else is reported as unknown. Every generator gets the
   * preprocessed prompt.
   */
  function GenerateStoryImage(story: string, width: int := 512, height: int := 512, model: string := "dalle"): (g: Generator)
    ensures g.Dalle? <==> model == "dalle"
    ensures g.StableDiffusion? <==> model != "dalle" && ("stabilityai/" <= model || "runwayml/" <= model)
    ensures g.Dalle? ==> g.size in DalleSizes && g.size == NormalizeDalleSize(SizeString(width, height))
    ensures g.StableDiffusion? ==> g.modelId == model && g.width == width && g.height == height
    ensures !g.Unknown? ==> g.prompt == PreprocessPrompt(story)
    ensures g.Unknown? ==> g.model == model
  {
    var prompt := PreprocessPrompt(story);
    if model == "dalle" then Dalle(prompt, NormalizeDalleSize(SizeString(width, height)))
    else if "stabilityai/" <= model || "runwayml/" <= model then StableDiffusion(prompt, model, width, height)
    else Unknown(model)
  }
}
