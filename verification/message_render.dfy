/**
 * How one chat message is cut into displayable segments
 * (`frontend/components/chat/Message.js`): prose paragraphs with inline code,
 * and fenced code blocks with a language.  React elements become data.
 */
module MessageRender {
  import opened Wrappers
  import opened Constants
  import opened ChatTypes
  import opened TextSplit

  /** A piece of a paragraph: plain text, or text between backticks. */
  datatype Inline = Text(text: string) | Code(code: string)

  /** A `<p>` paragraph, or a syntax-highlighted block with its language line. */
  datatype Segment = Paragraph(inlines: seq<Inline>) | CodeBlock(language: string, code: string)

  datatype RenderError = MissingVersions   // `message.versions.length` of a message without versions

  function InlineText(x: Inline): string {
    match x
    case Text(t) => t
    case Code(c) => c
  }

  function InlineTexts(xs: seq<Inline>): (r: seq<string>)
    ensures |r| == |xs| && forall i :: 0 <= i < |xs| ==> r[i] == InlineText(xs[i])
  {
    seq(|xs|, i requires 0 <= i < |xs| => InlineText(xs[i]))
  }

  /** `parseInlineCode`: split on backticks; odd pieces are code, even pieces text. */
  function ParseInlineCode(text: string): (r: seq<Inline>)
    ensures |r| == Count(text, '`') + 1
    ensures forall i :: 0 <= i < |r| ==> (r[i].Code? <==> i % 2 == 1)
    ensures Join(InlineTexts(r), "`") == text
  {
    var parts := Split(text, "`");
    SplitCharCount(text, '`');
    SplitJoin(text, "`");
    var r := seq(|parts|, i requires 0 <= i < |parts| => if i % 2 == 1 then Code(parts[i]) else Text(parts[i]));
    assert InlineTexts(r) == parts;
    r
  }

  /** `isUser ? [content] : content.split('```')`. */
  function MessageParts(m: Message): (r: seq<string>)
    ensures m.role == User ==> r == [m.content]
    ensures |r| >= 1 && Join(r, "```") == m.content
    ensures m.role != User ==> forall i :: 0 <= i < |r| ==> !Contains(r[i], "```")
  {
    if m.role == User then [m.content]
    else
      SplitJoin(m.content, "```");
      Split(m.content, "```")
  }

  /** A fenced part: the language is its first line, the code is the remaining lines. */
  function CodeBlockOf(part: string): (r: Segment)
    ensures r.CodeBlock? && !Contains(r.language, "\n")
    ensures Contains(part, "\n") ==> r.language + "\n" + r.code == part
    ensures !Contains(part, "\n") ==> r.language == part && r.code == ""
  {
    var lines := Split(part, "\n");
    CodeBlockLines(part);
    CodeBlock(lines[0], Join(lines[1..], "\n"))
  }

  lemma CodeBlockLines(part: string)
    ensures var lines := Split(part, "\n");
            (Contains(part, "\n") ==> |lines| >= 2 && lines[0] + "\n" + Join(lines[1..], "\n") == part)
            && (!Contains(part, "\n") ==> lines == [part])
  {
    var lines := Split(part, "\n");
    SplitWithoutSeparator(part, "\n");
    SplitJoin(part, "\n");
    if |lines| == 1 {
      assert part == lines[0];
    }
  }

  /** The paragraph for one non-empty line: plain for users, inline-code parsed otherwise. */
  function LineInlines(line: string, isUser: bool): seq<Inline> {
    if isUser then [Text(line)] else ParseInlineCode(line)
  }

  /** The non-empty lines, in order (`line ? <p/> : null`). */
  function NonEmptyLines(lines: seq<string>): (r: seq<string>)
    ensures |r| <= |lines|
    ensures forall i :: 0 <= i < |r| ==> |r[i]| > 0 && r[i] in lines
    ensures forall l :: l in lines && l != "" ==> l in r
    decreases |lines|
  {
    if |lines| == 0 then []
    else
      assert forall l :: l in lines ==> l == lines[0] || l in lines[1..];
      (if lines[0] != "" then [lines[0]] else []) + NonEmptyLines(lines[1..])
  }

  /** One line is kept exactly when it is not empty. */
  lemma NonEmptyLinesOne(l: string)
    ensures NonEmptyLines([l]) == if l == "" then [] else [l]
  {
    assert [l][1..] == [];
  }

  /** Filtering consecutive lines filters each, in order. */
  lemma {:induction false} NonEmptyLinesAppend(a: seq<string>, b: seq<string>)
    ensures NonEmptyLines(a + b) == NonEmptyLines(a) + NonEmptyLines(b)
    decreases |a|
  {
    if |a| == 0 {
      assert a + b == b;
    } else {
      assert (a + b)[0] == a[0] && (a + b)[1..] == a[1..] + b;
      NonEmptyLinesAppend(a[1..], b);
    }
  }

  /** One paragraph per line. */
  function Paragraphs(lines: seq<string>, isUser: bool): (r: seq<Segment>)
    ensures |r| == |lines|
  {
    seq(|lines|, i requires 0 <= i < |lines| => Paragraph(LineInlines(lines[i], isUser)))
  }

  lemma ParagraphsAppend(a: seq<string>, b: seq<string>, isUser: bool)
    ensures Paragraphs(a + b, isUser) == Paragraphs(a, isUser) + Paragraphs(b, isUser)
  {
  }

  /**
   * A prose part: one paragraph per non-empty line, whose pieces joined by
   * backticks give the line back; a user's paragraph is one plain text, an
   * assistant's alternates text and code.
   */
  function ProseSegments(part: string, isUser: bool): (r: seq<Segment>)
    ensures |r| == |NonEmptyLines(Split(part, "\n"))|
    ensures forall i :: 0 <= i < |r| ==>
              r[i].Paragraph? && Join(InlineTexts(r[i].inlines), "`") == NonEmptyLines(Split(part, "\n"))[i]
              && (isUser ==> |r[i].inlines| == 1 && r[i].inlines[0].Text?)
              && (!isUser ==> forall k :: 0 <= k < |r[i].inlines| ==> (r[i].inlines[k].Code? <==> k % 2 == 1))
  {
    var lines := NonEmptyLines(Split(part, "\n"));
    var r := Paragraphs(lines, isUser);
    assert forall i :: 0 <= i < |r| ==> r[i] == Paragraph(LineInlines(lines[i], isUser));
    assert forall i :: 0 <= i < |r| && isUser ==> InlineTexts(r[i].inlines) == [lines[i]];
    r
  }

  /** A single line renders as its paragraph, or as nothing when it is empty. */
  lemma ProseOfLine(line: string, isUser: bool)
    requires !Contains(line, "\n")
    ensures ProseSegments(line, isUser) == if line == "" then [] else [Paragraph(LineInlines(line, isUser))]
  {
    SplitWithoutSeparator(line, "\n");
    NonEmptyLinesOne(line);
  }

  /** The first line's paragraphs come first, then those of the rest: the order of lines is kept. */
  lemma ProseOfFirstLine(a: string, b: string, isUser: bool)
    requires !Contains(a, "\n")
    ensures ProseSegments(a + "\n" + b, isUser) == ProseSegments(a, isUser) + ProseSegments(b, isUser)
  {
    SingleSeparatorCut(a, "\n");
    SplitCons(a, "\n", b);
    SplitWithoutSeparator(a, "\n");
    NonEmptyLinesAppend([a], Split(b, "\n"));
    ParagraphsAppend(NonEmptyLines([a]), NonEmptyLines(Split(b, "\n")), isUser);
  }

  /** Parts from index `idx` on: even indices are prose, odd indices code blocks. */
  function RenderParts(parts: seq<string>, idx: nat, isUser: bool): seq<Segment>
    requires idx <= |parts|
    decreases |parts| - idx
  {
    if idx == |parts| then []
    else if idx % 2 == 0 then ProseSegments(parts[idx], isUser) + RenderParts(parts, idx + 1, isUser)
    else [CodeBlockOf(parts[idx])] + RenderParts(parts, idx + 1, isUser)
  }

  /** Everything `Message` renders for a message's content. */
  function RenderMessage(m: Message): seq<Segment> {
    RenderParts(MessageParts(m), 0, m.role == User)
  }

  /** `renderAdditionalInfo`: the version switcher appears when there is more than one version. */
  function ShowsVersionIndicator(m: Message): (r: Result<bool, RenderError>)
    ensures r.Err? <==> m.versions.None?
    ensures r.Ok? ==> (r.value <==> |m.versions.value| > 1)
  {
    match m.versions
    case None => Err(MissingVersions)
    case Some(vs) => Ok(|vs| > 1)
  }

  // ------------------------------------------------------------ properties

  function CodeBlocks(segs: seq<Segment>): nat
    decreases |segs|
  {
    if |segs| == 0 then 0 else (if segs[0].CodeBlock? then 1 else 0) + CodeBlocks(segs[1..])
  }

  lemma {:induction false} CodeBlocksAppend(a: seq<Segment>, b: seq<Segment>)
    ensures CodeBlocks(a + b) == CodeBlocks(a) + CodeBlocks(b)
    decreases |a|
  {
    if |a| == 0 {
      assert a + b == b;
    } else {
      assert (a + b)[0] == a[0];
      assert (a + b)[1..] == a[1..] + b;
      CodeBlocksAppend(a[1..], b);
    }
  }

  lemma ProseHasNoCodeBlocks(part: string, isUser: bool)
    ensures CodeBlocks(ProseSegments(part, isUser)) == 0
  {
    var segs := ProseSegments(part, isUser);
    var k := |segs|;
    while k > 0
      invariant 0 <= k <= |segs|
      invariant CodeBlocks(segs[k..]) == 0
    {
      assert segs[k - 1..][1..] == segs[k..];
      k := k - 1;
    }
    assert segs[0..] == segs;
  }

  lemma HalfStep(idx: nat)
    ensures idx % 2 == 0 ==> (idx + 1) / 2 == idx / 2
    ensures idx % 2 == 1 ==> (idx + 1) / 2 == idx / 2 + 1
  {
  }

  /** Code blocks come exactly from the odd-indexed parts. */
  lemma {:induction false} RenderPartsCodeBlocks(parts: seq<string>, idx: nat, isUser: bool)
    requires idx <= |parts|
    ensures CodeBlocks(RenderParts(parts, idx, isUser)) == |parts| / 2 - idx / 2
    decreases |parts| - idx
  {
    if idx < |parts| {
      RenderPartsCodeBlocks(parts, idx + 1, isUser);
      HalfStep(idx);
      if idx % 2 == 0 {
        ProseHasNoCodeBlocks(parts[idx], isUser);
        CodeBlocksAppend(ProseSegments(parts[idx], isUser), RenderParts(parts, idx + 1, isUser));
      } else {
        CodeBlocksAppend([CodeBlockOf(parts[idx])], RenderParts(parts, idx + 1, isUser));
      }
    }
  }

  /**
   * A user's content is never split on fences: it renders as one paragraph of
   * plain text per non-empty line, with no code block.
   */
  lemma UserMessageIsPlainProse(m: Message)
    requires m.role == User
    ensures RenderMessage(m) == ProseSegments(m.content, true)
    ensures CodeBlocks(RenderMessage(m)) == 0
    ensures forall i :: 0 <= i < |RenderMessage(m)| ==>
              RenderMessage(m)[i] == Paragraph([Text(NonEmptyLines(Split(m.content, "\n"))[i])])
  {
    assert RenderParts([m.content], 1, true) == [];
    ProseHasNoCodeBlocks(m.content, true);
    var lines := NonEmptyLines(Split(m.content, "\n"));
    forall i | 0 <= i < |lines| ensures ProseSegments(m.content, true)[i] == Paragraph([Text(lines[i])]) {
      assert ProseSegments(m.content, true) == Paragraphs(lines, true);
    }
  }

  /** An assistant message shows one code block per closed-or-open fence pair. */
  lemma AssistantCodeBlockCount(m: Message)
    requires m.role != User
    ensures CodeBlocks(RenderMessage(m)) == |Split(m.content, "```")| / 2
  {
    RenderPartsCodeBlocks(MessageParts(m), 0, false);
  }
}
