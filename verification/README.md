# Slides extension: a Dafny model

This project models the `slides` documentation extension (`src/spyce/slides.py`).
A `slide` directive turns an admonition-style block into a slide. Its first content
line is the title and the remaining lines are the body. The directive also renders the
slide as a reStructuredText section (`rjslide`). A `slide` domain keeps a registry from
document name to the slides found in that document. The host calls the domain's hooks
to clear a document, to merge a parallel worker's registry, and to process a freshly read
document. Processing records the slides and writes a sibling `-slides.rst` file. When a
document is resolved, every `slidelist` placeholder is replaced by nothing (slides not
included) or by a copy of every collected slide. Each copy is followed by a paragraph
that links back to where the slide was defined.

The host document tree is abstracted away:

- A slide is a `SlideNode` record (title, body lines, classes, docname, ids, source, line, section text).
- The slides a document yields are a sequence in traversal order.
- A resolved document is a sequence of body elements. Each placeholder sits at a list position.

The registry is a Python `dict`, and its insertion order decides the order in which slides are
listed. So it is modelled as an insertion-ordered list of entries with distinct keys
(`PyDict.Dict`). Frame conditions are stated on its map view `ToMap`. Ordering is stated on
`Keys` and `ConcatValues`.

Modules:

- `Outcomes` (`outcomes.dfy`): `Option`, `Result`, and `Collect`, which runs steps that may fail and stops at the first failure.
- `PyStr` (`py_str.dfy`): Python `str.find`, slicing with negative bounds, `'-' * n`, `%d`, and newline-terminated lines with their inverse.
- `PyDict` (`py_dict.dfy`): the ordered dict operations `get`, `d[k] = v`, `pop(k, None)` and `sum(d.values(), [])`.
- `SlideDirective` (`slide_directive.dfy`): `Slide.run`.
- `SlideDomain` (`slide_domain.dfy`): `clear_doc`, `merge_domaindata` and `process_doc`.
- `SlideListProcessor` (`slide_list.dfy`): `process` and `create_slide_reference`.

Calls into the host become parameters:

- `HostAdmonition` is what the host admonition directive returned: the node, or a system message.
- `DirectiveContext` holds the document name, source, line and ids the host assigns.
- `RelativeUri` is the builder's `get_relative_uri`; `None` stands for `NoUri`.

The prefix and suffix of a back-reference are computed in the source by searching its
description for `<<` and `>>`. `PythonCut` states that computation. `CutTexts` is its closed
form, and `DescriptionSplit` proves the two agree for every slide.

The copied entries are the same value for every placeholder, so `Process` computes them once
(`CopyEntries`: the slides interleaved with their `BackReferences`) and `ReplaceSlideLists`
receives them as a `Result`. The source raises at the first slide that has a URI but no id, and the
model fails at that same slide.

Exceptions become error values:

- `MissingTitle`: the directive has no content line, so `content[0]` fails.
- `MergeDomainData` returns `missing`: a listed document is absent from the worker's registry.
- `NoSlideId`: a URI exists but the slide has no id for `ids[0]`.

## Model

| member | source | states |
|---|---|---|
| SlideDirective.Run | src/spyce/slides.py:56-85 | Empty content is the missing-title error. A host system message is passed through. Otherwise the node's title followed by its body is exactly the content, and the class, docname, ids and source location come from the options and the host. |
| SlideDirective.EffectiveClasses | src/spyce/slides.py:61-62 | An absent or empty `class` option becomes `['admonition-slide']`. A non-empty class list is kept unchanged. |
| SlideDirective.Rjslide | src/spyce/slides.py:74-83 | The section text starts with a newline and the title, then a newline, then a line of dashes exactly as long as the title; the text ends with a newline. |
| SlideDirective.RjslideRoundTrip | src/spyce/slides.py:74-83 | When no line contains a newline, the section text can be read back into exactly the title and the body lines, in order. |
| SlideDirective.RunRendersContent | src/spyce/slides.py:58-83 | A created slide's stored section text holds the first content line as its title. Every later content line follows, in order, as its body. |
| SlideDomain.ClearDoc | src/spyce/slides.py:98-99 | The document's key is gone and every other document keeps its slides. Clearing an absent document changes nothing. The remaining keys keep their order. |
| SlideDomain.ClearDocIdempotent | src/spyce/slides.py:98-99 | Clearing the same document twice is the same as clearing it once. |
| SlideDomain.MergeDomainData | src/spyce/slides.py:101-103 | It succeeds exactly when every listed document is in the worker's registry. The listed documents then take the worker's slides and unlisted documents are untouched. Otherwise it stops at the first missing document, with only the earlier documents copied. In both cases the key order is `MergedKeys`: existing documents keep their place and new ones follow in listing order. |
| SlideDomain.MergedKeysShape | src/spyce/slides.py:102-103 | Assigning listed names keeps the existing keys first and in order, and the key set grows by exactly the listed names. |
| SlideDomain.MergeStep | src/spyce/slides.py:102-103 | Copying the next listed document, which the worker has, extends the merged registry by exactly that document's slides, and extends the key order by that name unless it is already present. |
| SlideDomain.ProcessDoc | src/spyce/slides.py:105-123 | The document's entry becomes its previous slides (or none) followed by the found slides. Other documents are unchanged and a new document's key goes last. The file left behind is the one `SlideFileFor` describes. |
| SlideDomain.SlideFileFor | src/spyce/slides.py:113-122 | A file is produced exactly when at least one slide is found, at `src/<docname>-slides.rst`, or at `<docname>-slides.rst` for an absolute name. |
| SlideDomain.RenderingsAppend | src/spyce/slides.py:119-122 | Appending slides appends their section texts: the file is written by one append per slide. |
| SlideDomain.SlideFileText | src/spyce/slides.py:113-122 | The file starts with `.. Created today \n`. The i-th slide's section text follows directly after the sections of the slides before it. |
| SlideDomain.RebuildReplacesSlides | src/spyce/slides.py:98-123 | Clearing a document and then processing it again leaves exactly the newly found slides under its name. No other document changes. |
| SlideListProcessor.AllSlidesCollectsEverything | src/spyce/slides.py:158 | A slide is in the collected list exactly when it is in some document's registry entry. |
| SlideListProcessor.AllSlidesAfterRebuild | src/spyce/slides.py:118-123 | After a document is cleared and processed again, its slides come last in the collected list, in document order, after all other documents' slides. |
| PyStr.FindIsFirst | src/spyce/slides.py:189-190 | No occurrence of the marker lies before the index `find` returns, and none exists at all when it returns -1. |
| PyStr.FindIsFirstOccurrence | src/spyce/slides.py:189-190 | When the marker occurs at i and at no earlier index, `find` returns exactly i. |
| SlideListProcessor.DescriptionSplit | src/spyce/slides.py:183-190 | Cutting the description with `find` and slicing, as the source does, gives the text before the first `<<` and after the first `>>`. Both are empty in link-only mode. Otherwise they are `(The ` and ` is located in <source>, line <line>.)`. |
| SlideListProcessor.CreateSlideReference | src/spyce/slides.py:182-208 | The paragraph has class `slide-source`, the prefix and suffix above, and an internal reference with text `original entry`. The refuri is the relative URI plus `#` and the slide's first id, or unset when there is no URI. It fails exactly when a URI exists and the slide has no id. |
| Outcomes.Collect | src/spyce/slides.py:169-178 | Running a sequence of steps that may each raise succeeds exactly when every step succeeds, with one value per step. Otherwise it fails with the error of the first failing step, and every earlier step succeeded. |
| Outcomes.CollectOrder | src/spyce/slides.py:169-178 | When every step succeeds, value i of the collected result is exactly step i's value. |
| SlideListProcessor.BackReferences | src/spyce/slides.py:169-178 | It succeeds exactly when every slide can be linked, with one back-reference per slide. Otherwise it fails with `NoSlideId` for the first slide that cannot be linked. |
| SlideListProcessor.BackReferencesOrder | src/spyce/slides.py:169-178 | Back-reference i is the paragraph `create_slide_reference` builds for slide i. |
| SlideListProcessor.CopyEntries | src/spyce/slides.py:169-178 | It succeeds exactly when every slide can be linked. Then it yields two nodes per slide. |
| SlideListProcessor.CopyEntriesOrder | src/spyce/slides.py:169-178 | Node 2i is slide i's copy with its ids cleared. Node 2i+1 is slide i's back-reference paragraph. |
| SlideListProcessor.CopyEntriesNoPlaceholder | src/spyce/slides.py:169-178 | No copied entry is a placeholder. |
| SlideListProcessor.ReplaceSlideLists | src/spyce/slides.py:159-180 | It fails exactly when slides are included, the document has a placeholder, and copying the slides failed. |
| SlideListProcessor.ReplaceLeavesNoPlaceholder | src/spyce/slides.py:159-180 | When the copied entries hold no placeholder, no placeholder remains after the replacement. |
| SlideListProcessor.ReplaceWithoutInclusion | src/spyce/slides.py:160-162 | With slides not included, the result is the document with every placeholder deleted and nothing put in its place. |
| SlideListProcessor.ReplaceLength | src/spyce/slides.py:164-180 | With slides included, the replacement succeeds, and the result has one node per node that is not a placeholder, plus the copied entries for each placeholder, plus one more node for each placeholder with ids. |
| SlideListProcessor.ReplaceInPlace | src/spyce/slides.py:164-180 | A placeholder between stretches without placeholders is replaced in place by a target carrying its ids (when it has ids) and then the copied entries. The nodes around it keep their order. |
| SlideListProcessor.ReplaceOutcome | src/spyce/slides.py:159-180 | Given copied entries of length n that hold no placeholder: without inclusion the result is the deletion result; with inclusion each placeholder contributes n nodes, or n+1 when it has ids, and no placeholder remains. |
| SlideListProcessor.Process | src/spyce/slides.py:157-180 | This is the whole `process` step over the collected slides of all documents. It gives the deletion result when slides are not included, fails exactly when an included placeholder meets an unlinkable slide, and otherwise has the 2n / 2n+1 length per placeholder with no placeholder left. |
| SlideListProcessor.ProcessInPlace | src/spyce/slides.py:157-180 | For a document with one placeholder, the placeholder becomes, in place, a target carrying its ids when it has ids, then for each collected slide its copy and its back-reference. |

## Left out

- Host directive machinery is left out: option parsing, `BaseAdmonition.run`, `add_name`, `set_source_info` and `note_explicit_target`. Their results are parameters (`HostAdmonition`, `DirectiveContext`). The host's own rejection of a slide with no body lines is part of the `HostAdmonition` outcome.
- The nested parse of the body into child nodes is left out. The body is kept as its content lines.
- A `slidelist` written inside a slide's body is therefore not modelled. In the source, every copy of that slide carries a copy of the placeholder (`slides.py:171`). The copies are made after the list of placeholders is taken (`slides.py:159`), so they are never replaced. "No placeholder left" holds only because slide bodies are kept as text.
- `resolve_reference` and the host's `resolve_references` rewrite links inside the copied slide. They are host behaviour, so a copy is the slide with its ids cleared and nothing else changed.
- Debug `print` calls, the `slide_emit_warnings` warning, and the `slide-defined` event are left out. They have no effect on the registry or the output.
- Real file I/O is not modelled. The slide file is a path-and-text value, and its text is the content left after the truncating write and the appends.
- `replace_self` also moves a placeholder's names and classes onto the first new node. A placeholder is modelled by its ids only, so only the ids move, onto the target.
- The `SlideList` directive itself (`slides.py:141-144`) only returns an empty placeholder. Any ids the host attaches to it are the `ids` of `SlideListNode`.
- The HTML/LaTeX visitor functions and `setup` registration (`slides.py:222-272`) only dispatch into host translators and register names and defaults.
- `src/conf.py` (manifest loading, build settings) and `src/spyce/helloworld.py` (a pasted tutorial) are not part of this model.
- Localisation through `_()` and `__()` is the identity.
- String lengths are counted in characters, as Python counts code points.
- `merge_domaindata` receives the worker's registry directly. The `KeyError` for a worker without a `slides` entry is not modelled.
- A slide's `source` is a string. Formatting a missing source as `None` is not modelled.
