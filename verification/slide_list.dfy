/** The `slidelist` placeholder and its expansion when a document is
    resolved: every slide of every document is copied in place of the
    placeholder, each copy followed by a paragraph linking back to the
    slide's original location. */
module SlideListProcessor {
  import opened Outcomes
  import opened PyStr
  import opened PyDict
  import opened SlideDirective
  import opened SlideDomain

  /** The reference to the original slide, with the emphasised link text. */
  datatype Reference = Reference(internal: bool, refuri: Option<string>, text: string)

  /** The `slide-source` paragraph: text, reference, text. */
  datatype BackReference = BackReference(
    classes: seq<string>, prefix: string, reference: Reference, suffix: string)

  /** The body elements of a resolved document, at list positions. */
  datatype DocNode =
    | SlideListNode(ids: seq<string>)
    | SlideEntry(slide: SlideNode)
    | TargetNode(ids: seq<string>)
    | ParagraphNode(para: BackReference)
    | OtherNode(text: string)

  /** The `slide_include_slides` and `slide_link_only` configuration values. */
  datatype Config = Config(includeSlides: bool, linkOnly: bool)

  /** `slide['ids'][0]` raised IndexError: a URI was found but the slide has
      no id to link to. */
  datatype ProcessError = NoSlideId(slide: SlideNode)

  /** The builder's `get_relative_uri(from, to)`; None stands for NoUri. */
  type RelativeUri = (string, string) -> Option<string>

  const LinkText: string := "original entry"

  /** All slides of all documents, document by document in registry order. */
  function AllSlides(reg: Registry): seq<SlideNode> {
    ConcatValues(reg)
  }

  /** Every collected slide comes from some document's entry, and every
      document's slides are collected. */
  lemma AllSlidesCollectsEverything(reg: Registry, s: SlideNode)
    requires Valid(reg)
    ensures s in AllSlides(reg) <==> exists d :: d in ToMap(reg) && s in ToMap(reg)[d]
  {
    ConcatValuesMembership(reg, s);
  }

  /** After a document is cleared and processed again, its slides are listed
      last, in the order they occur in the document. */
  lemma AllSlidesAfterRebuild(reg: Registry, docname: string, found: seq<SlideNode>)
    requires Valid(reg)
    ensures AllSlides(ProcessDoc(ClearDoc(reg, docname), docname, found).registry)
            == AllSlides(ClearDoc(reg, docname)) + found
  {
    var cleared := ClearDoc(reg, docname);
    assert Get(cleared, docname).GetOr([]) + found == found;
    ConcatValuesSetNew(cleared, docname, found);
  }

  /** The text after the link in the full description: `%s` is the slide's
      source and `%d` its line. */
  function LocationSuffix(slide: SlideNode): string {
    " is located in " + slide.source + ", line " + DecimalString(slide.line) + ".)"
  }

  /** The description the back-reference paragraph is cut from; `<<` and
      `>>` delimit the link text. */
  function Description(slide: SlideNode, linkOnly: bool): string {
    if linkOnly then "<<original entry>>"
    else "(The <<original entry>>" + LocationSuffix(slide)
  }

  /** A character absent from a known prefix of `s` occurs nowhere in that
      prefix of `s`. */
  lemma CharAbsentFromPrefix(p: string, c: char, s: string, n: nat)
    requires n <= |s| && s[..n] == p && c !in p
    ensures forall j :: 0 <= j < n ==> s[j] != c
  {
    forall j | 0 <= j < n
      ensures s[j] != c
    {
      assert s[j] == p[j];
      assert p[j] in p;
    }
  }

  lemma FirstMarker(s: string, marker: string, n: nat)
    requires |marker| == 2 && OccursAt(s, marker, n)
    requires forall j :: 0 <= j < n ==> s[j] != marker[0]
    ensures Find(s, marker) == n
  {
    forall j | 0 <= j < n
      ensures !OccursAt(s, marker, j)
    {
      if j + 2 <= |s| {
        assert s[j..j + 2][0] == s[j];
      }
    }
    FindIsFirstOccurrence(s, marker, n);
  }

  lemma LinkOnlySplit(description: string)
    requires description == "<<original entry>>"
    ensures Find(description, "<<") == 0
    ensures Find(description, ">>") == 16
  {
    assert description[0..2] == "<<";
    FirstMarker(description, "<<", 0);
    assert description[16..18] == ">>";
    assert description[..16] == "<<original entry";
    CharAbsentFromPrefix("<<original entry", '>', description, 16);
    FirstMarker(description, ">>", 16);
  }

  lemma LocatedSplit(p: string, q: string)
    requires p == "(The <<original entry>>"
    ensures Find(p + q, "<<") == 5
    ensures Find(p + q, ">>") == 21
  {
    assert p[5..7] == "<<";
    assert p[..5] == "(The ";
    CharAbsentFromPrefix("(The ", '<', p, 5);
    FirstMarker(p, "<<", 5);
    FindInPrefix(p, q, "<<");
    assert p[21..23] == ">>";
    assert p[..21] == "(The <<original entry";
    CharAbsentFromPrefix("(The <<original entry", '>', p, 21);
    FirstMarker(p, ">>", 21);
    FindInPrefix(p, q, ">>");
  }

  lemma LocatedSlices(p: string, q: string)
    requires p == "(The <<original entry>>"
    ensures SliceTo(p + q, 5) == "(The "
    ensures SliceFrom(p + q, 21 + 2) == q
  {
    assert (p + q)[..5] == p[..5];
    assert (p + q)[23..] == q;
  }

  /** The source's cut of a description around its link text: everything
      before the first `<<`, and everything after the first `>>`, with
      Python's `find` and slicing. */
  function PythonCut(description: string): (string, string) {
    (SliceTo(description, Find(description, "<<")),
     SliceFrom(description, Find(description, ">>") + 2))
  }

  /** The texts around the link: empty in link-only mode, otherwise "(The "
      and the location of the slide. */
  function CutTexts(slide: SlideNode, linkOnly: bool): (string, string) {
    if linkOnly then ("", "") else ("(The ", LocationSuffix(slide))
  }

  /** Cutting either description as the source does yields exactly the texts
      around the link. */
  lemma DescriptionSplit(slide: SlideNode, linkOnly: bool)
    ensures PythonCut(Description(slide, linkOnly)) == CutTexts(slide, linkOnly)
  {
    var description := Description(slide, linkOnly);
    if linkOnly {
      LinkOnlySplit(description);
    } else {
      LocatedSplit("(The <<original entry>>", LocationSuffix(slide));
      LocatedSlices("(The <<original entry>>", LocationSuffix(slide));
    }
  }

  /** The back-reference of a slide can be built: no URI, or an id to link to. */
  predicate Linkable(slide: SlideNode, docname: string, relUri: RelativeUri) {
    relUri(docname, slide.docname).None? || |slide.ids| > 0
  }

  /** `p` is the back-reference paragraph for `slide` seen from `docname`:
      class `slide-source`, the description's text around the link, and an
      internal reference to the slide's first id when the builder has a URI. */
  predicate IsBackReference(p: BackReference, slide: SlideNode, docname: string, linkOnly: bool,
                            relUri: RelativeUri)
  {
    && p.classes == ["slide-source"]
    && p.reference.internal
    && p.reference.text == LinkText
    && p.prefix == (if linkOnly then "" else "(The ")
    && p.suffix == (if linkOnly then "" else LocationSuffix(slide))
    && (relUri(docname, slide.docname).None? ==> p.reference.refuri.None?)
    && (relUri(docname, slide.docname).Some? ==>
          |slide.ids| > 0
          && p.reference.refuri == Some(relUri(docname, slide.docname).value + "#" + slide.ids[0]))
  }

  /** `create_slide_reference`: the back-reference paragraph for one slide,
      seen from document `docname`. */
  function CreateSlideReference(slide: SlideNode, docname: string, linkOnly: bool,
                                relUri: RelativeUri): (r: Result<BackReference, ProcessError>)
    ensures r.Ok? <==> Linkable(slide, docname, relUri)
    ensures r.Err? ==> r.error == NoSlideId(slide)
    ensures r.Ok? ==> IsBackReference(r.value, slide, docname, linkOnly, relUri)
  {
    var (prefix, suffix) := CutTexts(slide, linkOnly);
    match relUri(docname, slide.docname)
    case None =>
      Ok(BackReference(["slide-source"], prefix, Reference(true, None, LinkText), suffix))
    case Some(uri) =>
      if |slide.ids| == 0 then Err(NoSlideId(slide))
      else Ok(BackReference(["slide-source"], prefix,
                            Reference(true, Some(uri + "#" + slide.ids[0]), LinkText), suffix))
  }

  /** The copy placed in the list: the slide with its ids cleared. */
  function Copy(slide: SlideNode): SlideNode {
    slide.(ids := [])
  }

  /** `create_slide_reference` applied to each slide, in order. */
  function Attempts(slides: seq<SlideNode>, docname: string, linkOnly: bool,
                    relUri: RelativeUri): seq<Result<BackReference, ProcessError>>
  {
    seq(|slides|, i requires 0 <= i < |slides| =>
                    CreateSlideReference(slides[i], docname, linkOnly, relUri))
  }

  /** The back-reference of each slide, in order. Like the source's loop, it
      stops at the first slide that cannot be linked. */
  function BackReferences(slides: seq<SlideNode>, docname: string, linkOnly: bool,
                          relUri: RelativeUri): (r: Result<seq<BackReference>, ProcessError>)
    ensures r.Ok? <==> forall i :: 0 <= i < |slides| ==> Linkable(slides[i], docname, relUri)
    ensures r.Ok? ==> |r.value| == |slides|
    ensures r.Err? ==> exists i :: 0 <= i < |slides| && r.error == NoSlideId(slides[i])
                                   && !Linkable(slides[i], docname, relUri)
                                   && forall j :: 0 <= j < i ==> Linkable(slides[j], docname, relUri)
  {
    var attempts := Attempts(slides, docname, linkOnly, relUri);
    assert forall i :: 0 <= i < |slides| ==>
             attempts[i] == CreateSlideReference(slides[i], docname, linkOnly, relUri);
    Collect(attempts)
  }

  /** Back-reference `i` is the one `create_slide_reference` builds for slide `i`. */
  lemma BackReferencesOrder(slides: seq<SlideNode>, docname: string,
                            linkOnly: bool, relUri: RelativeUri, i: nat)
    requires BackReferences(slides, docname, linkOnly, relUri).Ok?
    requires i < |slides|
    ensures CreateSlideReference(slides[i], docname, linkOnly, relUri).Ok?
    ensures BackReferences(slides, docname, linkOnly, relUri).value[i]
            == CreateSlideReference(slides[i], docname, linkOnly, relUri).value
  {
    CollectOrder(Attempts(slides, docname, linkOnly, relUri), i);
  }

  /** Each slide's copy followed by its back-reference, slide by slide. */
  function Interleave(slides: seq<SlideNode>, refs: seq<BackReference>): (r: seq<DocNode>)
    requires |refs| == |slides|
    ensures |r| == 2 * |slides|
  {
    if slides == [] then []
    else [SlideEntry(Copy(slides[0])), ParagraphNode(refs[0])] + Interleave(slides[1..], refs[1..])
  }

  /** Entry `2 i` is the copy of slide `i` and entry `2 i + 1` its
      back-reference; no entry is a placeholder. */
  lemma {:induction false} InterleaveOrder(slides: seq<SlideNode>, refs: seq<BackReference>)
    requires |refs| == |slides|
    ensures forall i :: 0 <= i < |slides| ==>
              Interleave(slides, refs)[2 * i] == SlideEntry(Copy(slides[i]))
              && Interleave(slides, refs)[2 * i + 1] == ParagraphNode(refs[i])
    ensures forall k :: 0 <= k < 2 * |slides| ==> !Interleave(slides, refs)[k].SlideListNode?
  {
    if slides != [] {
      InterleaveOrder(slides[1..], refs[1..]);
      var rest := Interleave(slides[1..], refs[1..]);
      var r := Interleave(slides, refs);
      assert r == [SlideEntry(Copy(slides[0])), ParagraphNode(refs[0])] + rest;
      forall i | 0 < i < |slides|
        ensures r[2 * i] == SlideEntry(Copy(slides[i])) && r[2 * i + 1] == ParagraphNode(refs[i])
      {
        assert slides[1..][i - 1] == slides[i] && refs[1..][i - 1] == refs[i];
        assert r[2 * i] == rest[2 * (i - 1)];
        assert r[2 * i + 1] == rest[2 * (i - 1) + 1];
      }
      forall k | 0 <= k < 2 * |slides|
        ensures !r[k].SlideListNode?
      {
        if k >= 2 {
          assert r[k] == rest[k - 2];
        }
      }
    }
  }

  /** For each slide in order, its copy followed by its back-reference. */
  function CopyEntries(slides: seq<SlideNode>, docname: string, linkOnly: bool,
                       relUri: RelativeUri): (r: Result<seq<DocNode>, ProcessError>)
    ensures r.Ok? <==> forall i :: 0 <= i < |slides| ==> Linkable(slides[i], docname, relUri)
    ensures r.Ok? ==> |r.value| == 2 * |slides|
  {
    match BackReferences(slides, docname, linkOnly, relUri)
    case Err(e) => Err(e)
    case Ok(refs) => Ok(Interleave(slides, refs))
  }

  /** Entry `2 i` is the copy of slide `i` and entry `2 i + 1` its
      back-reference, so the slides appear in their collected order; no entry
      is a placeholder. */
  lemma CopyEntriesOrder(slides: seq<SlideNode>, docname: string,
                         linkOnly: bool, relUri: RelativeUri, i: nat)
    requires CopyEntries(slides, docname, linkOnly, relUri).Ok?
    requires i < |slides|
    ensures var entries := CopyEntries(slides, docname, linkOnly, relUri).value;
            && entries[2 * i] == SlideEntry(Copy(slides[i]))
            && CreateSlideReference(slides[i], docname, linkOnly, relUri).Ok?
            && entries[2 * i + 1]
               == ParagraphNode(CreateSlideReference(slides[i], docname, linkOnly, relUri).value)
  {
    var refs := BackReferences(slides, docname, linkOnly, relUri).value;
    InterleaveOrder(slides, refs);
    BackReferencesOrder(slides, docname, linkOnly, relUri, i);
  }

  /** No copied entry is a placeholder. */
  lemma CopyEntriesNoPlaceholder(slides: seq<SlideNode>, docname: string, linkOnly: bool,
                                 relUri: RelativeUri)
    ensures var entries := CopyEntries(slides, docname, linkOnly, relUri);
            entries.Ok? ==> forall k :: 0 <= k < |entries.value| ==> !entries.value[k].SlideListNode?
  {
    var refs := BackReferences(slides, docname, linkOnly, relUri);
    if refs.Ok? {
      InterleaveOrder(slides, refs.value);
    }
  }

  /** What one placeholder becomes when slides are included: a target if the
      placeholder has ids, then the copied entries. `replace_self` moves the
      placeholder's ids onto the first new node, so the target carries them
      and the placeholder's anchor survives. */
  function Expansion(ids: seq<string>, entries: seq<DocNode>): seq<DocNode> {
    (if |ids| > 0 then [TargetNode(ids)] else []) + entries
  }

  function CountSlideLists(doctree: seq<DocNode>): (r: nat)
    ensures r <= |doctree|
  {
    if doctree == [] then 0
    else (if doctree[0].SlideListNode? then 1 else 0) + CountSlideLists(doctree[1..])
  }

  /** Number of placeholders that carry ids (and so receive a target). */
  function CountTargets(doctree: seq<DocNode>): (r: nat)
    ensures r <= CountSlideLists(doctree)
  {
    if doctree == [] then 0
    else (if doctree[0].SlideListNode? && |doctree[0].ids| > 0 then 1 else 0)
         + CountTargets(doctree[1..])
  }

  /** The document with every placeholder deleted and nothing else changed. */
  function WithoutSlideLists(doctree: seq<DocNode>): (r: seq<DocNode>)
    ensures |r| == |doctree| - CountSlideLists(doctree)
    ensures forall x :: x in r <==> x in doctree && !x.SlideListNode?
  {
    if doctree == [] then []
    else if doctree[0].SlideListNode? then WithoutSlideLists(doctree[1..])
    else
      assert doctree == [doctree[0]] + doctree[1..];
      [doctree[0]] + WithoutSlideLists(doctree[1..])
  }

  /** What one body element becomes: a placeholder is removed (slides not
      included) or expanded with the copied entries; any other element stays.
      The copies are the same for every placeholder, so they are computed
      once and passed in as `entries`. */
  function Replacement(node: DocNode, included: bool,
                       entries: Result<seq<DocNode>, ProcessError>)
    : Result<seq<DocNode>, ProcessError>
  {
    match node
    case SlideListNode(ids) =>
      if !included then Ok([])
      else (match entries
            case Err(e) => Err(e)
            case Ok(es) => Ok(Expansion(ids, es)))
    case _ => Ok([node])
  }

  /** Replaces each placeholder, in document order, by nothing (slides not
      included) or by its expansion. */
  function ReplaceSlideLists(doctree: seq<DocNode>, included: bool,
                             entries: Result<seq<DocNode>, ProcessError>)
    : (r: Result<seq<DocNode>, ProcessError>)
    ensures r.Err? <==> included && CountSlideLists(doctree) > 0 && entries.Err?
  {
    if doctree == [] then Ok([])
    else
      match Replacement(doctree[0], included, entries)
      case Err(e) => Err(e)
      case Ok(h) =>
        match ReplaceSlideLists(doctree[1..], included, entries)
        case Err(e) => Err(e)
        case Ok(t) => Ok(h + t)
  }

  /** One step of the replacement: the first node's replacement followed by
      the replacement of the rest. */
  lemma ReplaceSlideListsStep(s: seq<DocNode>, included: bool,
                              entries: Result<seq<DocNode>, ProcessError>)
    requires s != []
    requires ReplaceSlideLists(s, included, entries).Ok?
    ensures Replacement(s[0], included, entries).Ok?
    ensures ReplaceSlideLists(s[1..], included, entries).Ok?
    ensures ReplaceSlideLists(s, included, entries).value
            == Replacement(s[0], included, entries).value
               + ReplaceSlideLists(s[1..], included, entries).value
  {
  }

  /** The converse step: a first node and a rest that both succeed make the
      replacement succeed with their results one after the other. */
  lemma ReplaceSlideListsCons(s: seq<DocNode>, included: bool,
                              entries: Result<seq<DocNode>, ProcessError>)
    requires s != []
    requires Replacement(s[0], included, entries).Ok?
    requires ReplaceSlideLists(s[1..], included, entries).Ok?
    ensures ReplaceSlideLists(s, included, entries)
            == Ok(Replacement(s[0], included, entries).value
                  + ReplaceSlideLists(s[1..], included, entries).value)
  {
  }

  /** When the copied entries hold no placeholder, neither does the result. */
  lemma {:induction false} ReplaceLeavesNoPlaceholder(doctree: seq<DocNode>, included: bool,
                                                      entries: Result<seq<DocNode>, ProcessError>)
    requires entries.Ok? ==> forall i :: 0 <= i < |entries.value| ==> !entries.value[i].SlideListNode?
    requires ReplaceSlideLists(doctree, included, entries).Ok?
    ensures var r := ReplaceSlideLists(doctree, included, entries).value;
            forall i :: 0 <= i < |r| ==> !r[i].SlideListNode?
  {
    if doctree != [] {
      ReplaceSlideListsStep(doctree, included, entries);
      ReplaceLeavesNoPlaceholder(doctree[1..], included, entries);
      var h := Replacement(doctree[0], included, entries).value;
      var t := ReplaceSlideLists(doctree[1..], included, entries).value;
      assert forall i :: 0 <= i < |h| ==> !h[i].SlideListNode? by {
        if doctree[0].SlideListNode? && included {
          var ids := doctree[0].ids;
          assert h == (if |ids| > 0 then [TargetNode(ids)] else []) + entries.value;
        }
      }
      forall i | 0 <= i < |h + t|
        ensures !(h + t)[i].SlideListNode?
      {
        if i < |h| {
          assert (h + t)[i] == h[i];
        } else {
          assert (h + t)[i] == t[i - |h|];
        }
      }
    }
  }

  /** With slides not included, every placeholder is removed and nothing
      takes its place. */
  lemma {:induction false} ReplaceWithoutInclusion(doctree: seq<DocNode>,
                                                   entries: Result<seq<DocNode>, ProcessError>)
    ensures ReplaceSlideLists(doctree, false, entries) == Ok(WithoutSlideLists(doctree))
  {
    if doctree != [] {
      ReplaceWithoutInclusion(doctree[1..], entries);
      var h := if doctree[0].SlideListNode? then [] else [doctree[0]];
      assert Replacement(doctree[0], false, entries) == Ok(h);
      assert ReplaceSlideLists(doctree, false, entries)
             == Ok(h + WithoutSlideLists(doctree[1..]));
      assert h + WithoutSlideLists(doctree[1..]) == WithoutSlideLists(doctree);
    }
  }

  /** Each placeholder becomes its entries, plus a target when it has ids;
      every other node stays one node. */
  lemma {:induction false} ReplaceLength(doctree: seq<DocNode>, entries: seq<DocNode>)
    ensures ReplaceSlideLists(doctree, true, Ok(entries)).Ok?
    ensures |ReplaceSlideLists(doctree, true, Ok(entries)).value|
            == |doctree| - CountSlideLists(doctree)
               + |entries| * CountSlideLists(doctree) + CountTargets(doctree)
  {
    if doctree != [] {
      ReplaceSlideListsStep(doctree, true, Ok(entries));
      var h := Replacement(doctree[0], true, Ok(entries)).value;
      var t := ReplaceSlideLists(doctree[1..], true, Ok(entries)).value;
      ReplaceLength(doctree[1..], entries);
      var isList := if doctree[0].SlideListNode? then 1 else 0;
      var hasIds := if doctree[0].SlideListNode? && |doctree[0].ids| > 0 then 1 else 0;
      assert |h| == if isList == 0 then 1 else |entries| + hasIds;
      assert CountSlideLists(doctree) == isList + CountSlideLists(doctree[1..]);
      assert CountTargets(doctree) == hasIds + CountTargets(doctree[1..]);
      HeadShare(isList, hasIds, |entries|, |doctree[1..]|, CountSlideLists(doctree[1..]),
                CountTargets(doctree[1..]));
    }
  }

  /** The length formula grows by one node's share: a placeholder (`isList`
      is 1) adds `n` entries plus its target (`hasIds`), any other node adds
      itself. `rest`, `p` and `tg` are the node, placeholder and target counts
      of the nodes after it. */
  lemma HeadShare(isList: nat, hasIds: nat, n: nat, rest: nat, p: nat, tg: nat)
    requires isList <= 1 && hasIds <= isList
    ensures (if isList == 0 then 1 else n + hasIds) + (rest - p + n * p + tg)
            == (rest + 1) - (isList + p) + n * (isList + p) + (hasIds + tg)
  {
    assert n * (isList + p) == n * isList + n * p;
  }

  /** Replacing in a concatenation replaces in each part. */
  lemma {:induction false} ReplaceSlideListsAppend(a: seq<DocNode>, b: seq<DocNode>, included: bool,
                                                   entries: Result<seq<DocNode>, ProcessError>)
    requires ReplaceSlideLists(a, included, entries).Ok?
    requires ReplaceSlideLists(b, included, entries).Ok?
    ensures ReplaceSlideLists(a + b, included, entries)
            == Ok(ReplaceSlideLists(a, included, entries).value
                  + ReplaceSlideLists(b, included, entries).value)
  {
    if a == [] {
      assert a + b == b;
      assert ReplaceSlideLists(a, included, entries).value == [];
      assert [] + ReplaceSlideLists(b, included, entries).value
             == ReplaceSlideLists(b, included, entries).value;
    } else {
      ReplaceSlideListsStep(a, included, entries);
      var h := Replacement(a[0], included, entries).value;
      var ta := ReplaceSlideLists(a[1..], included, entries).value;
      var tb := ReplaceSlideLists(b, included, entries).value;
      assert (a + b)[0] == a[0];
      assert (a + b)[1..] == a[1..] + b;
      ReplaceSlideListsAppend(a[1..], b, included, entries);
      ReplaceSlideListsCons(a + b, included, entries);
      assert h + (ta + tb) == (h + ta) + tb;
    }
  }

  /** A stretch of the document without placeholders is left as it is. */
  lemma {:induction false} ReplaceSlideListsIdentity(a: seq<DocNode>, included: bool,
                                                     entries: Result<seq<DocNode>, ProcessError>)
    requires CountSlideLists(a) == 0
    ensures ReplaceSlideLists(a, included, entries) == Ok(a)
  {
    if a != [] {
      ReplaceSlideListsIdentity(a[1..], included, entries);
      assert a == [a[0]] + a[1..];
    }
  }

  /** A lone placeholder becomes its expansion. */
  lemma ReplaceSingle(ids: seq<string>, entries: seq<DocNode>)
    ensures ReplaceSlideLists([SlideListNode(ids)], true, Ok(entries)) == Ok(Expansion(ids, entries))
  {
    var middle := [SlideListNode(ids)];
    assert middle[1..] == [];
    assert Replacement(middle[0], true, Ok(entries)) == Ok(Expansion(ids, entries));
    assert Expansion(ids, entries) + [] == Expansion(ids, entries);
  }

  /** A placeholder followed by a stretch without placeholders becomes its
      expansion followed by that stretch. */
  lemma ReplaceHead(ids: seq<string>, after: seq<DocNode>, entries: seq<DocNode>)
    requires CountSlideLists(after) == 0
    ensures ReplaceSlideLists([SlideListNode(ids)] + after, true, Ok(entries))
            == Ok(Expansion(ids, entries) + after)
  {
    ReplaceSlideListsIdentity(after, true, Ok(entries));
    ReplaceSingle(ids, entries);
    ReplaceSlideListsAppend([SlideListNode(ids)], after, true, Ok(entries));
  }

  /** A placeholder between two stretches without placeholders is replaced in
      place by a target (when it has ids) and the copied entries; the nodes
      around it keep their order. */
  lemma ReplaceInPlace(before: seq<DocNode>, ids: seq<string>, after: seq<DocNode>,
                       entries: seq<DocNode>)
    requires CountSlideLists(before) == 0 && CountSlideLists(after) == 0
    ensures ReplaceSlideLists(before + [SlideListNode(ids)] + after, true, Ok(entries))
            == Ok(before + (if |ids| > 0 then [TargetNode(ids)] else []) + entries + after)
  {
    var tail := [SlideListNode(ids)] + after;
    ReplaceHead(ids, after, entries);
    ReplaceSlideListsIdentity(before, true, Ok(entries));
    ReplaceSlideListsAppend(before, tail, true, Ok(entries));
    Regroup(before, [SlideListNode(ids)], after);
    Regroup(before, Expansion(ids, entries), after);
    var target := if |ids| > 0 then [TargetNode(ids)] else [];
    assert Expansion(ids, entries) == target + entries;
    Regroup(before, target, entries);
  }

  lemma Regroup(a: seq<DocNode>, b: seq<DocNode>, c: seq<DocNode>)
    ensures a + (b + c) == a + b + c
  {
  }

  /** Everything `process` promises, for copied entries of a known length
      that hold no placeholder. */
  lemma ReplaceOutcome(doctree: seq<DocNode>, included: bool,
                       entries: Result<seq<DocNode>, ProcessError>, n: nat)
    requires entries.Ok? ==> |entries.value| == n
    requires entries.Ok? ==> forall i :: 0 <= i < |entries.value| ==> !entries.value[i].SlideListNode?
    ensures !included ==> ReplaceSlideLists(doctree, included, entries) == Ok(WithoutSlideLists(doctree))
    ensures var r := ReplaceSlideLists(doctree, included, entries);
            r.Ok? && included ==>
              |r.value| == |doctree| - CountSlideLists(doctree)
                           + n * CountSlideLists(doctree) + CountTargets(doctree)
    ensures var r := ReplaceSlideLists(doctree, included, entries);
            r.Ok? ==> forall i :: 0 <= i < |r.value| ==> !r.value[i].SlideListNode?
  {
    var r := ReplaceSlideLists(doctree, included, entries);
    ReplaceWithoutInclusion(doctree, entries);
    if r.Ok? {
      ReplaceLeavesNoPlaceholder(doctree, included, entries);
      if entries.Ok? {
        ReplaceLength(doctree, entries.value);
      } else if included {
        ReplaceSlideListsIdentity(doctree, true, entries);
      }
    }
  }

  /** `SlideListProcessor.process`: replaces the placeholders of the document
      being resolved using the slides of all documents. */
  function Process(doctree: seq<DocNode>, docname: string, reg: Registry, config: Config,
                   relUri: RelativeUri): (r: Result<seq<DocNode>, ProcessError>)
    ensures !config.includeSlides ==> r == Ok(WithoutSlideLists(doctree))
    ensures r.Err? <==> config.includeSlides && CountSlideLists(doctree) > 0
                        && exists i :: 0 <= i < |AllSlides(reg)| &&
                             !Linkable(AllSlides(reg)[i], docname, relUri)
    ensures r.Ok? && config.includeSlides ==>
              |r.value| == |doctree| - CountSlideLists(doctree)
                           + 2 * |AllSlides(reg)| * CountSlideLists(doctree)
                           + CountTargets(doctree)
    ensures r.Ok? ==> forall i :: 0 <= i < |r.value| ==> !r.value[i].SlideListNode?
  {
    var slides := AllSlides(reg);
    var entries := CopyEntries(slides, docname, config.linkOnly, relUri);
    CopyEntriesNoPlaceholder(slides, docname, config.linkOnly, relUri);
    ReplaceOutcome(doctree, config.includeSlides, entries, 2 * |slides|);
    ReplaceSlideLists(doctree, config.includeSlides, entries)
  }

  /** A placeholder between stretches without placeholders becomes, in place,
      a target when it has ids, then for each collected slide its copy and its
      back-reference. */
  lemma ProcessInPlace(before: seq<DocNode>, ids: seq<string>, after: seq<DocNode>,
                       docname: string, reg: Registry, config: Config, relUri: RelativeUri)
    requires CountSlideLists(before) == 0 && CountSlideLists(after) == 0
    requires config.includeSlides
    requires CopyEntries(AllSlides(reg), docname, config.linkOnly, relUri).Ok?
    ensures Process(before + [SlideListNode(ids)] + after, docname, reg, config, relUri)
            == Ok(before + (if |ids| > 0 then [TargetNode(ids)] else [])
                  + CopyEntries(AllSlides(reg), docname, config.linkOnly, relUri).value + after)
  {
    ReplaceInPlace(before, ids, after,
                   CopyEntries(AllSlides(reg), docname, config.linkOnly, relUri).value);
  }
}
