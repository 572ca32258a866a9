/**
 * `CodeParser.parse` of `ibl_github_bot/tests_generator.py`: the language
 * model's reply is cut down to the code it holds, in three steps, and the
 * result is then handed to Python's own parser. That parser is a parameter
 * here (`syntaxOk`).
 */
module CodeParser {
  import opened Wrappers
  import opened PyStr

  /** A fence line: three backticks ending a line. */
  const Fence: string := "```\n"

  /** A closing fence at the very end of the reply. */
  const Closing: string := "\n```"

  /** The characters `strip("\n```")` removes: it takes its argument as a SET of characters. */
  const FenceChars: set<char> := {'\n', '`'}

  /** The reply opens with a bare fence line or a `python` fence line. */
  predicate OpensWithFence(text: string)
  {
    StartsWith(text, "```\n") || StartsWith(text, "```python\n")
  }

  /** Step 1: an opening fence line is dropped and the other lines are joined back with "\n". */
  function DropFenceLine(text: string): (r: string)
    ensures !OpensWithFence(text) ==> r == text
  {
    if OpensWithFence(text) then Join(SplitLines(text)[1..], "\n") else text
  }

  /**
   * Step 2: a reply ending with a closing fence loses every newline and
   * backtick at both ends, then every whitespace character at both ends.
   */
  function StripClosingFence(text: string): (r: string)
    ensures !EndsWith(text, Closing) ==> r == text
    ensures EndsWith(text, Closing) && r != [] ==> r[0] !in Whitespace && r[|r| - 1] !in Whitespace
  {
    if EndsWith(text, Closing) then
      StripEnds(Strip(text, FenceChars), Whitespace);
      Strip(Strip(text, FenceChars), Whitespace)
    else text
  }

  /**
   * When step 3 cuts the text, stated by positions: with `i` the first
   * fence line and `after` the text behind it, the cut happens when `after`
   * holds no further fence line and does not start with "#", or when the
   * piece of `after` before the next fence line (all of `after` if there is
   * none) mentions "Output".
   */
  predicate Truncates(text: string)
  {
    match Find(text, Fence)
    case None => false
    case Some(i) =>
      var after := text[i + |Fence|..];
      match Find(after, Fence)
      case None => !StartsWith(after, "#") || Contains(after, "Output")
      case Some(j) => Contains(after[..j], "Output")
  }

  /**
   * Step 3: split at the fence lines; keep only the first piece when there
   * are exactly two pieces and the second does not start with "#", or when
   * the second piece mentions "Output". The result is the text up to its
   * first fence line, which it no longer contains, or the text unchanged.
   */
  function CutAtInnerFence(text: string): (r: string)
    ensures Truncates(text) ==> Find(text, Fence).Some? && r == text[..Find(text, Fence).value]
    ensures !Truncates(text) ==> r == text
    ensures Truncates(text) ==> Find(r, Fence).None?
  {
    if Contains(text, Fence) then
      var parts := SplitOn(text, Fence);
      BeforeFirst(text, Fence, Find(text, Fence).value);
      if |parts| == 2 && !StartsWith(parts[1], "#") then parts[0]
      else if Contains(parts[1], "Output") then parts[0]
      else text
    else text
  }

  /** The three steps in order. */
  function Normalise(text: string): string
  {
    CutAtInnerFence(StripClosingFence(DropFenceLine(text)))
  }

  /** What `parse` returns: the normalised text and whether it parses as Python. */
  datatype Parsed = Parsed(code: string, ok: bool)

  /**
   * `CodeParser().parse(text)`: the same normalised text whatever the
   * verdict, and a verdict that is exactly the syntax check's on that text.
   */
  function Parse(text: string, syntaxOk: string -> bool): (r: Parsed)
    ensures r.code == Normalise(text)
    ensures r.ok <==> syntaxOk(Normalise(text))
  {
    var code := Normalise(text);
    Parsed(code, syntaxOk(code))
  }

  // ----- Lemmas -----

  /**
   * Step 1 removes exactly the fence line: after "```" or "```python" and a
   * newline, the rest comes back unchanged, provided it uses "\n" as its
   * only line boundary and does not end with one.
   */
  lemma DropFenceLineExact(fence: string, body: string)
    requires fence == "```" || fence == "```python"
    requires OnlyNewlineBreaks(body)
    requires body != [] ==> body[|body| - 1] != '\n'
    ensures DropFenceLine(fence + "\n" + body) == body
  {
    var text := fence + "\n" + body;
    FenceLine(fence, body);
    SplitAtNewline(text, |fence|);
    DropHead(text[..|fence|], SplitLines(body));
    SplitLinesJoin(body);
  }

  /** A fence line opens the text, and its "\n" is the first line boundary. */
  lemma FenceLine(fence: string, body: string)
    requires fence == "```" || fence == "```python"
    ensures OpensWithFence(fence + "\n" + body)
    ensures LineEnd(fence + "\n" + body) == |fence|
    ensures (fence + "\n" + body)[|fence|] == '\n'
    ensures (fence + "\n" + body)[|fence| + 1..] == body
  {
    var text := fence + "\n" + body;
    var i := |fence|;
    assert text[..i + 1] == fence + "\n";
    assert forall k :: 0 <= k < i ==> text[k] == fence[k];
    assert text[i] == '\n';
  }

  lemma DropHead(head: string, tail: seq<string>)
    ensures ([head] + tail)[1..] == tail
  {
  }

  /**
   * A reply that is nothing but fenced code comes out as the code itself,
   * when the code holds no backtick, uses "\n" line boundaries, and neither
   * starts nor ends with whitespace.
   */
  lemma WrappedResponse(opener: string, code: string)
    requires opener == "```" || opener == "```python"
    requires code != [] && '`' !in code && OnlyNewlineBreaks(code)
    requires code[0] !in Whitespace && code[|code| - 1] !in Whitespace
    ensures Normalise(opener + "\n" + code + "\n```") == code
  {
    var body := code + Closing;
    assert opener + "\n" + code + "\n```" == opener + "\n" + body;
    assert OnlyNewlineBreaks(body) by {
      forall k | 0 <= k < |body| && body[k] in LineBreaks ensures body[k] == '\n' {
        if k < |code| { assert body[k] == code[k]; }
      }
    }
    DropFenceLineExact(opener, body);
    assert EndsWith(body, Closing);
    assert body[0] == code[0];
    StripLeftStops(body, FenceChars);
    StripRightSuffix(code, Closing, FenceChars);
    StripUnchanged(code, Whitespace);
    FindAbsent(code, Fence);
  }

  /**
   * A reply of fenced code followed by a line of prose (not a "#" header,
   * without backticks) comes out as the code and the newline before the
   * fence: the prose is cut away.
   */
  lemma TrailingProse(opener: string, code: string, prose: string)
    requires opener == "```" || opener == "```python"
    requires '`' !in code && OnlyNewlineBreaks(code)
    requires prose != [] && '`' !in prose && OnlyNewlineBreaks(prose)
    requires prose[0] != '#' && prose[|prose| - 1] != '\n'
    ensures Normalise(opener + "\n" + code + "\n```\n" + prose) == code + "\n"
  {
    var body := code + "\n" + Fence + prose;
    assert opener + "\n" + code + "\n```\n" + prose == opener + "\n" + body;
    var i := |code| + 1;
    assert OnlyNewlineBreaks(body) by {
      forall k | 0 <= k < |body| && body[k] in LineBreaks ensures body[k] == '\n' {
        if k < |code| { assert body[k] == code[k]; }
        else if k >= i + 4 { assert body[k] == prose[k - i - 4]; }
      }
    }
    assert body[|body| - 1] == prose[|prose| - 1];
    DropFenceLineExact(opener, body);
    assert !EndsWith(body, Closing);
    CutBeforeProse(code, prose);
  }

  /** Step 3 on code, a fence line and prose: only the code and its newline are kept. */
  lemma CutBeforeProse(code: string, prose: string)
    requires '`' !in code
    requires prose != [] && '`' !in prose && prose[0] != '#'
    ensures CutAtInnerFence(code + "\n" + Fence + prose) == code + "\n"
  {
    var body := code + "\n" + Fence + prose;
    var i := |code| + 1;
    assert body[i..i + 4] == Fence;
    forall j: nat | j < i ensures !OccursAt(body, Fence, j) {
      if j + 4 <= |body| {
        assert body[j..j + 4][0] == body[j];
        if j < |code| { assert body[j] == code[j]; }
      }
    }
    FindAt(body, Fence, i);
    assert body[i + 4..] == prose;
    FindAbsent(prose, Fence);
    assert !StartsWith(prose, "#") by { assert prose[..1][0] == prose[0]; }
    assert Truncates(body);
    assert body[..i] == code + "\n";
  }

  /**
   * The closing-fence strip works on characters, not on a literal suffix:
   * any run of newlines and backticks at either end goes, whether it came
   * from the fence or from the text itself ("`x`\n```" gives "x").
   */
  lemma StripTakesCharacters(pre: string, code: string, post: string)
    requires forall k :: 0 <= k < |pre| ==> pre[k] in FenceChars
    requires forall k :: 0 <= k < |post| ==> post[k] in FenceChars
    requires EndsWith(post, Closing)
    requires code != [] && code[0] != '`' && code[|code| - 1] != '`'
    requires code[0] !in Whitespace && code[|code| - 1] !in Whitespace
    ensures StripClosingFence(pre + code + post) == code
  {
    var t := pre + code + post;
    assert t[|t| - 4..] == post[|post| - 4..];
    assert t == pre + (code + post);
    assert (code + post)[0] == code[0];
    StripLeftPrefix(pre, code + post, FenceChars);
    StripRightSuffix(code, post, FenceChars);
    assert Strip(t, FenceChars) == code;
    StripUnchanged(code, Whitespace);
    assert EndsWith(t, Closing);
  }
}
