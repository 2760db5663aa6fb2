/** The `slide` domain: a registry from document name to the slides found in
    that document, with the clear and merge hooks the host calls during
    incremental and parallel builds, and the per-document processing step
    that records slides and renders the document's slide file. */
module SlideDomain {
  import opened Outcomes
  import opened PyDict
  import opened SlideDirective

  /** `domain.data['slides']`: docname to slides, in insertion order. */
  type Registry = Dict<seq<SlideNode>>

  /** `clear_doc`: forgets the slides of one document. */
  function ClearDoc(reg: Registry, docname: string): (r: Registry)
    requires Valid(reg)
    ensures Valid(r)
    ensures ToMap(r) == ToMap(reg) - {docname}
    ensures docname !in ToMap(reg) ==> r == reg
    ensures Keys(r) == Omit(Keys(reg), docname)
  {
    Pop(reg, docname)
  }

  /** Clearing a document twice is the same as clearing it once. */
  lemma ClearDocIdempotent(reg: Registry, docname: string)
    requires Valid(reg)
    ensures ClearDoc(ClearDoc(reg, docname), docname) == ClearDoc(reg, docname)
  {
  }

  /** The entries of `other` for the listed documents that `other` has. */
  function Listed(docnames: seq<string>, other: Registry): (m: map<string, seq<SlideNode>>)
    requires Valid(other)
  {
    map d | d in docnames && d in ToMap(other) :: ToMap(other)[d]
  }

  lemma ListedStep(docnames: seq<string>, i: nat, other: Registry)
    requires Valid(other)
    requires i < |docnames| && docnames[i] in ToMap(other)
    ensures Listed(docnames[..i + 1], other)
            == Listed(docnames[..i], other)[docnames[i] := ToMap(other)[docnames[i]]]
  {
    assert docnames[..i + 1] == docnames[..i] + [docnames[i]];
  }

  lemma OverrideUpdate(a: map<string, seq<SlideNode>>, b: map<string, seq<SlideNode>>,
                       k: string, v: seq<SlideNode>)
    ensures (a + b)[k := v] == a + b[k := v]
  {
  }

  /** The key order after assigning each of `names` in turn: a name already
      present keeps its place, a new name goes last. */
  function MergedKeys(keys: seq<string>, names: seq<string>): seq<string>
    decreases |names|
  {
    if names == [] then keys
    else
      var previous := MergedKeys(keys, names[..|names| - 1]);
      if names[|names| - 1] in previous then previous else previous + [names[|names| - 1]]
  }

  /** The existing keys stay first and in order; the key set grows by exactly
      the assigned names. */
  lemma {:induction false} MergedKeysShape(keys: seq<string>, names: seq<string>)
    ensures |keys| <= |MergedKeys(keys, names)|
    ensures MergedKeys(keys, names)[..|keys|] == keys
    ensures forall x :: x in MergedKeys(keys, names) <==> x in keys || x in names
    decreases |names|
  {
    if names != [] {
      var init := names[..|names| - 1];
      MergedKeysShape(keys, init);
      assert names == init + [names[|names| - 1]];
      var previous := MergedKeys(keys, init);
      assert previous[..|keys|] == keys;
      if names[|names| - 1] !in previous {
        assert (previous + [names[|names| - 1]])[..|keys|] == previous[..|keys|];
      }
    }
  }

  /** `merged` is `reg` after the first `i` listed documents were copied from
      `other`, all of which `other` has. */
  predicate MergedUpTo(reg: Registry, docnames: seq<string>, other: Registry, i: nat,
                       merged: Registry)
    requires Valid(other)
  {
    && i <= |docnames|
    && Valid(merged)
    && (forall j :: 0 <= j < i ==> docnames[j] in ToMap(other))
    && ToMap(merged) == ToMap(reg) + Listed(docnames[..i], other)
    && Keys(merged) == MergedKeys(Keys(reg), docnames[..i])
  }

  /** Copying the next listed document extends the merged registry by it. */
  function MergeStep(reg: Registry, docnames: seq<string>, i: nat, other: Registry,
                     merged: Registry): (r: Registry)
    requires Valid(other) && MergedUpTo(reg, docnames, other, i, merged)
    requires i < |docnames| && docnames[i] in ToMap(other)
    ensures MergedUpTo(reg, docnames, other, i + 1, r)
  {
    var d := docnames[i];
    ListedStep(docnames, i, other);
    OverrideUpdate(ToMap(reg), Listed(docnames[..i], other), d, ToMap(other)[d]);
    assert docnames[..i + 1][..i] == docnames[..i];
    var r := Set(merged, d, ToMap(other)[d]);
    assert forall j :: 0 <= j < i + 1 ==> docnames[j] in ToMap(other);
    r
  }

  /** `merge_domaindata`: copies the slides of the listed documents from a
      worker's registry. A listed document the worker does not have raises a
      KeyError after the earlier documents were already copied; `missing`
      then names it and `merged` is the registry at that point. Existing
      documents keep their place in the key order and new ones are added in
      listing order. */
  method MergeDomainData(reg: Registry, docnames: seq<string>, other: Registry)
    returns (merged: Registry, missing: Option<string>)
    requires Valid(reg) && Valid(other)
    ensures Valid(merged)
    ensures missing.None? <==> forall i :: 0 <= i < |docnames| ==> docnames[i] in ToMap(other)
    ensures missing.None? ==> ToMap(merged) == ToMap(reg) + Listed(docnames, other)
    ensures missing.None? ==> Keys(merged) == MergedKeys(Keys(reg), docnames)
    ensures missing.Some? ==>
              exists j :: 0 <= j < |docnames| && docnames[j] == missing.value
                && docnames[j] !in ToMap(other)
                && (forall i :: 0 <= i < j ==> docnames[i] in ToMap(other))
                && ToMap(merged) == ToMap(reg) + Listed(docnames[..j], other)
                && Keys(merged) == MergedKeys(Keys(reg), docnames[..j])
  {
    merged := reg;
    var i := 0;
    assert docnames[..0] == [];
    assert MergedUpTo(reg, docnames, other, 0, merged);
    while i < |docnames|
      invariant MergedUpTo(reg, docnames, other, i, merged)
    {
      var d := docnames[i];
      var found := Get(other, d);
      if found.None? {
        missing := Some(d);
        MergeStopped(reg, docnames, other, i, merged);
        return;
      }
      merged := MergeStep(reg, docnames, i, other, merged);
      i := i + 1;
    }
    MergeFinished(reg, docnames, other, merged);
    missing := None;
  }

  /** Stopping at a listed document the worker lacks: it is the first such
      document, and the registry holds exactly the documents before it. */
  lemma MergeStopped(reg: Registry, docnames: seq<string>, other: Registry, i: nat,
                     merged: Registry)
    requires Valid(other) && MergedUpTo(reg, docnames, other, i, merged)
    requires i < |docnames| && docnames[i] !in ToMap(other)
    ensures !forall k :: 0 <= k < |docnames| ==> docnames[k] in ToMap(other)
    ensures exists j :: 0 <= j < |docnames| && docnames[j] == docnames[i]
              && docnames[j] !in ToMap(other)
              && (forall k :: 0 <= k < j ==> docnames[k] in ToMap(other))
              && ToMap(merged) == ToMap(reg) + Listed(docnames[..j], other)
              && Keys(merged) == MergedKeys(Keys(reg), docnames[..j])
  {
  }

  /** Having copied every listed document, the registry holds all of them. */
  lemma MergeFinished(reg: Registry, docnames: seq<string>, other: Registry, merged: Registry)
    requires Valid(other) && MergedUpTo(reg, docnames, other, |docnames|, merged)
    ensures Valid(merged)
    ensures forall k :: 0 <= k < |docnames| ==> docnames[k] in ToMap(other)
    ensures ToMap(merged) == ToMap(reg) + Listed(docnames, other)
    ensures Keys(merged) == MergedKeys(Keys(reg), docnames)
  {
    assert docnames[..|docnames|] == docnames;
  }

  /** The first line of every generated slide file. */
  const FileHeader: string := ".. Created today \n"

  /** `os.path.join('src', docname + '-slides.rst')`: an absolute name
      discards the `src` directory. */
  function SlidesFilePath(docname: string): (r: string)
    ensures |docname| > 0 && docname[0] == '/' ==> r == docname + "-slides.rst"
    ensures (|docname| == 0 || docname[0] != '/') ==> r == "src/" + docname + "-slides.rst"
  {
    if |docname| > 0 && docname[0] == '/' then docname + "-slides.rst"
    else "src/" + docname + "-slides.rst"
  }

  /** The section texts of the slides, one after another. */
  function Renderings(slides: seq<SlideNode>): (r: string)
  {
    if slides == [] then [] else slides[0].rjslide + Renderings(slides[1..])
  }

  /** Appending slides appends their renderings (the file is opened in append
      mode once per slide). */
  lemma {:induction false} RenderingsAppend(a: seq<SlideNode>, b: seq<SlideNode>)
    ensures Renderings(a + b) == Renderings(a) + Renderings(b)
  {
    if a == [] {
      assert a + b == b;
    } else {
      assert (a + b)[1..] == a[1..] + b;
      RenderingsAppend(a[1..], b);
    }
  }

  /** A slide file written for a document. */
  datatype SlidesFile = SlidesFile(path: string, text: string)

  datatype DocProcessed = DocProcessed(registry: Registry, file: Option<SlidesFile>)

  /** `process_doc`: appends the document's slides, in traversal order, to
      its registry entry (created empty if absent), and writes the slide
      file when the document has at least one slide. */
  function ProcessDoc(reg: Registry, docname: string, found: seq<SlideNode>): (r: DocProcessed)
    requires Valid(reg)
    ensures Valid(r.registry)
    ensures docname in ToMap(reg) ==>
              ToMap(r.registry) == ToMap(reg)[docname := ToMap(reg)[docname] + found]
    ensures docname !in ToMap(reg) ==> ToMap(r.registry) == ToMap(reg)[docname := found]
    ensures docname in ToMap(reg) ==> Keys(r.registry) == Keys(reg)
    ensures docname !in ToMap(reg) ==> Keys(r.registry) == Keys(reg) + [docname]
    ensures r.file == SlideFileFor(docname, found)
  {
    var previous := Get(reg, docname).GetOr([]);
    assert docname in ToMap(reg) ==> previous == ToMap(reg)[docname];
    assert docname !in ToMap(reg) ==> previous + found == found;
    DocProcessed(Set(reg, docname, previous + found), SlideFileFor(docname, found))
  }

  /** The slide file `process_doc` leaves behind: written only when the
      document has a slide, truncated to the header, then one section per
      slide appended. */
  function SlideFileFor(docname: string, found: seq<SlideNode>): (r: Option<SlidesFile>)
    ensures r.Some? <==> |found| > 0
    ensures r.Some? ==> r.value.path == SlidesFilePath(docname)
  {
    if |found| > 0 then Some(SlidesFile(SlidesFilePath(docname), FileHeader + Renderings(found)))
    else None
  }

  /** The slide file starts with the header, and the section of the i-th
      slide sits right after the sections of the slides before it. */
  lemma SlideFileText(docname: string, found: seq<SlideNode>, i: nat)
    requires i < |found|
    ensures SlideFileFor(docname, found).Some?
    ensures var text := SlideFileFor(docname, found).value.text;
            var start := |FileHeader| + |Renderings(found[..i])|;
            && text[..|FileHeader|] == FileHeader
            && start + |found[i].rjslide| <= |text|
            && text[start..start + |found[i].rjslide|] == found[i].rjslide
  {
    SectionAt(FileHeader, found, i);
  }

  /** In a header followed by the renderings, slide i's section follows the
      header and the sections before it. */
  lemma SectionAt(header: string, found: seq<SlideNode>, i: nat)
    requires i < |found|
    ensures var text := header + Renderings(found);
            var start := |header| + |Renderings(found[..i])|;
            && text[..|header|] == header
            && start + |found[i].rjslide| <= |text|
            && text[start..start + |found[i].rjslide|] == found[i].rjslide
  {
    assert found == found[..i] + found[i..];
    RenderingsAppend(found[..i], found[i..]);
    assert found[i..] == [found[i]] + found[i + 1..];
    RenderingsAppend([found[i]], found[i + 1..]);
    assert Renderings([found[i]]) == found[i].rjslide + Renderings([]);
  }

  /** A rebuilt document (cleared, then processed again) holds exactly the
      slides found in its latest version. */
  lemma RebuildReplacesSlides(reg: Registry, docname: string, found: seq<SlideNode>)
    requires Valid(reg)
    ensures ToMap(ProcessDoc(ClearDoc(reg, docname), docname, found).registry)
            == ToMap(reg)[docname := found]
  {
    RemoveThenSet(ToMap(reg), docname, found);
  }

  lemma RemoveThenSet(m: map<string, seq<SlideNode>>, k: string, v: seq<SlideNode>)
    ensures (m - {k})[k := v] == m[k := v]
  {
  }
}
