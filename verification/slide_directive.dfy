/** The `slide` directive: the first content line is the slide's title, the
    remaining lines its body, and the slide is also rendered as a
    reStructuredText section (`rjslide`) for the per-document slide file. */
module SlideDirective {
  import opened Outcomes
  import opened PyStr

  /** A `slide_node` as the rest of the extension sees it. `body` stands for
      the content the host parses into the node's children; `rjslide` is
      the section text stored on the node. */
  datatype SlideNode = SlideNode(
    title: string,
    body: seq<string>,
    classes: seq<string>,
    docname: string,
    ids: seq<string>,
    source: string,
    line: int,
    rjslide: string)

  /** The directive's `class` option (a list of class names). The `name`
      option is read only by the host's `add_name`, whose effect is the ids
      in `DirectiveContext`. */
  datatype SlideOptions = SlideOptions(classOption: Option<seq<string>>)

  /** What the host supplies around one directive: the current document's
      name, the source location, and the ids that `add_name` and
      `note_explicit_target` give the node. */
  datatype DirectiveContext = DirectiveContext(
    docname: string, source: string, line: int, ids: seq<string>)

  /** What the host's admonition directive returned for the slide: either the
      admonition node or a system message reporting a problem. */
  datatype HostAdmonition = AdmonitionBuilt | SystemMessage(text: string)

  /** Outcome of running the directive. `MissingTitle` is the error raised
      when the directive has no content line to take the title from. */
  datatype RunResult = MissingTitle | Message(text: string) | Created(node: SlideNode)

  const DefaultClasses: seq<string> := ["admonition-slide"]

  /** The `class` option after defaulting: an absent or empty class list
      (both falsy in Python) is replaced by the default class. */
  function EffectiveClasses(classOption: Option<seq<string>>): (r: seq<string>)
    ensures classOption.Some? && classOption.value != [] ==> r == classOption.value
    ensures classOption.None? || classOption.value == [] ==> r == DefaultClasses
  {
    match classOption
    case Some(cs) => if cs == [] then DefaultClasses else cs
    case None => DefaultClasses
  }

  /** The reStructuredText section for a slide: a blank line, the title, a
      dash underline as long as the title, each body line, and a blank line. */
  function Rjslide(title: string, body: seq<string>): (r: string)
    ensures |r| == 2 * |title| + 4 + |TerminatedLines(body)|
    ensures r[0] == '\n' && r[1..|title| + 1] == title && r[|title| + 1] == '\n'
    ensures forall i :: |title| + 2 <= i < 2 * |title| + 2 ==> r[i] == '-'
    ensures r[2 * |title| + 2] == '\n' && r[|r| - 1] == '\n'
  {
    "\n" + title + "\n" + Repeat('-', |title|) + "\n" + TerminatedLines(body) + "\n"
  }

  /** Reads a section back into its title and body lines; None unless the
      text has exactly the shape `Rjslide` produces. */
  function ParseRjslide(s: string): (r: Option<(string, seq<string>)>)
  {
    if |s| == 0 || s[0] != '\n' then None
    else match NewlineIndex(s[1..])
      case None => None
      case Some(i) =>
        var title := s[1..][..i];
        var after := s[1..][i + 1..];
        var n := |title|;
        if |after| < n + 1 || after[..n] != Repeat('-', n) || after[n] != '\n' then None
        else
          var bodyText := after[n + 1..];
          if |bodyText| == 0 || bodyText[|bodyText| - 1] != '\n' then None
          else match SplitTerminatedLines(bodyText[..|bodyText| - 1])
            case None => None
            case Some(lines) => Some((title, lines))
  }

  /** The section text determines the title and the body lines, in order:
      reading it back gives exactly what was rendered. */
  lemma RjslideRoundTrip(title: string, body: seq<string>)
    requires HasNoNewline(title) && AllHaveNoNewline(body)
    ensures ParseRjslide(Rjslide(title, body)) == Some((title, body))
  {
    var dashes := Repeat('-', |title|);
    var lines := TerminatedLines(body);
    var s := Rjslide(title, body);
    var rest := dashes + "\n" + lines + "\n";
    assert s[1..] == title + "\n" + rest;
    NewlineIndexAfterLine(title, rest);
    assert s[1..][..|title|] == title;
    var after := s[1..][|title| + 1..];
    assert after == rest;
    assert after[..|title|] == dashes;
    var bodyText := after[|title| + 1..];
    assert bodyText == lines + "\n";
    assert bodyText[..|bodyText| - 1] == lines;
    SplitTerminatedLinesRoundTrip(body);
  }

  /** `Slide.run`: takes the title from the first content line, defaults the
      class option, and fills the node the host built. */
  function Run(content: seq<string>, options: SlideOptions, ctx: DirectiveContext,
               host: HostAdmonition): (r: RunResult)
    ensures r.MissingTitle? <==> content == []
    ensures content != [] && host.SystemMessage? ==> r == Message(host.text)
    ensures r.Created? <==> content != [] && host.AdmonitionBuilt?
    ensures r.Created? ==>
              && [r.node.title] + r.node.body == content
              && r.node.classes == EffectiveClasses(options.classOption)
              && r.node.docname == ctx.docname
              && r.node.ids == ctx.ids
              && r.node.source == ctx.source
              && r.node.line == ctx.line
  {
    if content == [] then MissingTitle
    else
      var title := content[0];
      var body := content[1..];
      var classes := EffectiveClasses(options.classOption);
      match host
      case SystemMessage(text) => Message(text)
      case AdmonitionBuilt =>
        Created(SlideNode(title, body, classes, ctx.docname, ctx.ids, ctx.source, ctx.line,
                          Rjslide(title, body)))
  }

  /** The stored section text of a created slide holds the first content line
      as its title and every later line, in order, as its body. */
  lemma RunRendersContent(content: seq<string>, options: SlideOptions, ctx: DirectiveContext)
    requires content != [] && AllHaveNoNewline(content)
    ensures Run(content, options, ctx, AdmonitionBuilt).Created?
    ensures ParseRjslide(Run(content, options, ctx, AdmonitionBuilt).node.rjslide)
            == Some((content[0], content[1..]))
  {
    assert HasNoNewline(content[0]);
    assert AllHaveNoNewline(content[1..]) by {
      forall i | 0 <= i < |content[1..]|
        ensures HasNoNewline(content[1..][i])
      {
        assert content[1..][i] == content[i + 1];
      }
    }
    RjslideRoundTrip(content[0], content[1..]);
  }
}
