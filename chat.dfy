/**
 * The streaming display of an assistant answer in main.py's
 * `handle_user_input`: the generated text is consumed one character at a
 * time; letters collect in the current word, which is committed to the
 * response at the next whitespace or punctuation character; after every
 * character the placeholder shows the response, the pending word and a
 * cursor. The text itself comes from the story generator, a remote service,
 * and is a parameter here.
 */
module Chat {
  import opened Text

  /** The cursor drawn after the text while it streams. */
  const Cursor := "▌"

  /** A character that ends the current word: `char.isspace() or char in ".,!?;:"`. */
  predicate IsBreak(c: char) {
    IsSpace(c) || c in ".,!?;:"
  }

  /**
   * The streaming loop and its final flush. Every intermediate display is
   * the text consumed so far followed by the cursor, the final response is
   * the whole generated text, and the stored message content is that text
   * with surrounding whitespace stripped.
   */
  method StreamResponse(generated: string) returns (fullResponse: string, displays: seq<string>, content: string)
    ensures fullResponse == generated
    ensures |displays| == |generated|
    ensures forall k :: 0 <= k < |displays| ==> displays[k] == generated[..k + 1] + Cursor
    ensures content == Strip(generated)
  {
    fullResponse := "";
    var currentWord := "";
    displays := [];
    for i := 0 to |generated|
      invariant fullResponse + currentWord == generated[..i]
      invariant forall j :: 0 <= j < |currentWord| ==> !IsBreak(currentWord[j])
      invariant fullResponse == [] || IsBreak(fullResponse[|fullResponse| - 1])
      invariant |displays| == i
      invariant forall k :: 0 <= k < i ==> displays[k] == generated[..k + 1] + Cursor
    {
      var c := generated[i];
      TakeSnoc(generated, i);
      if IsBreak(c) {
        if currentWord != [] {
          fullResponse := fullResponse + currentWord + [c];
          currentWord := "";
        } else {
          fullResponse := fullResponse + [c];
        }
      } else {
        currentWord := currentWord + [c];
      }
      displays := displays + [fullResponse + currentWord + Cursor];
    }
    TakeAll(generated);
    if currentWord != [] {
      fullResponse := fullResponse + currentWord;
    }
    content := Strip(fullResponse);
  }
}
