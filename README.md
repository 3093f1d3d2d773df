# Project set-up tool: metadata editing and configuration logic

The project set-up tool builds a GIS project: it creates a geodatabase with
one feature dataset per name in the last configuration file it reads (see
Findings), and clips and selects the source layers of every configuration
file into them. It then rewrites the metadata of every produced
dataset. Most of the tool is calls into a desktop GIS toolkit. This model
covers the parts that are logic of the tool's own:

- **The metadata editor** (`update_metadata`, present identically in
  `ProjectSetupTool_Final.py` and `MetadataUpdates.py`). It applies one
  request to every element a path matched, in order, and changes each
  element in place. The request has a new text `t` and a mode:
  - `update` rewrites a present text. A `REQUIRED:` placeholder is
    overwritten. An HTML abstract, escaped or raw, ending in three closing
    `DIV`s gets a `<P><SPAN>t</SPAN></P>` paragraph before every run of
    those three `DIV`s. Any other text gets `t` appended as a further
    sentence.
  - `replace` sets the text to `t`.
  - `add` appends a new child with a given tag, optional attributes and
    text `t`.

  It returns how many elements it counted. In `update` mode the two `DIV`
  branches are not counted, and elements without text are skipped.
- **The missing-abstract fallback** of `update_datasets`. When none of
  `dataIdInfo/idAbs`, `idinfo/descript/abstract` and `idPurp/idAbs` exists
  and the record has no `idinfo` element, it appends `idinfo/descript` and
  then adds an `abstract` holding the abstract text under it.
- **Feature-dataset name collection** (`getcsvdata`). It builds the list of
  `feature_dataset` names from the configuration rows, each name once, in
  first-seen order.
- **The IN/OUT classifier** (`calc`). It labels the pieces of the union of
  the project area boundary with its buffer ring.

Modules:
- `Wrappers` holds `Option`.
- `ElementTree` holds the XML element as a class: tag, optional text,
  attributes and children, all updated in place. It also holds
  `SubElement`, attribute setting and `find` on plain child paths
  (`a/b/c`).
- `MetadataText` holds the `update` rewrite as a pure function on strings.
  Python's `str.replace` is modelled as `ReplaceAll`.
- `MetadataUpdate` holds the in-place editor and the abstract fallback.
  `ApplyToText` and `CountOf` are the reference definitions that the
  editor's method is proved against.
- `FeatureDatasets` holds `getcsvdata` as written and in corrected form,
  with `FirstSeen` as the order-preserving de-duplication it is specified
  by.
- `InOut` holds the classifier.

## Model

| member | source | states |
|---|---|---|
| ElementTree.Element.constructor | ProjectSetupTool_Final.py:543-546 | `ET.Element(tag)`: a new element has the tag, no text, no attributes and no children |
| ElementTree.Element.Append | ProjectSetupTool_Final.py:544-546 | `append` adds the child as the last child and changes nothing else of the parent |
| ElementTree.Element.Set | ProjectSetupTool_Final.py:494-496 | `set(k, v)` overwrites the one attribute `k` and leaves tag, text and children alone |
| ElementTree.SubElement | ProjectSetupTool_Final.py:492 | the new child is fresh, bare and carries the tag; it is appended last to the parent, whose tag, text and attributes are unchanged |
| ElementTree.SetAll | ProjectSetupTool_Final.py:494-496 | setting each attribute of the request in turn leaves exactly the old attributes overridden by the requested ones, whatever the iteration order |
| ElementTree.Find | MetadataUpdates.py:140-142 | `find` on a child path returns an element exactly when some chain of children spells the path, and the element it returns is at the end of such a chain and carries the path's last tag; the empty path returns the element itself |
| MetadataText.EscapedInsert | ProjectSetupTool_Final.py:472 | the escaped `html_insert`: the escaped paragraph and span openers, the new text, their escaped closers, then the escaped closing divisions |
| MetadataText.RawInsert | ProjectSetupTool_Final.py:475 | the raw `html_insert`: `<P><SPAN>`, the new text, `</SPAN></P>`, then `</DIV></DIV></DIV>` |
| MetadataText.Divs | MetadataUpdates.py:77-82 | each triple-`DIV` sequence the `update` rule looks for begins with a markup character (`&` or `<`) |
| MetadataText.Insert | MetadataUpdates.py:78-82 | each `html_insert` begins with a markup character and ends with the same triple-`DIV` sequence it replaces |
| MetadataText.ReplaceAllNoMatch | ProjectSetupTool_Final.py:473 | `str.replace` (modelled as `ReplaceAll`) returns a text in which the pattern does not occur unchanged |
| MetadataText.UpdateRule | ProjectSetupTool_Final.py:468-482 | the `update` rewrite of a present text; the element is counted exactly when the text is a `REQUIRED:` placeholder or ends in neither triple-`DIV` sequence |
| MetadataText.RequiredOverwrites | ProjectSetupTool_Final.py:468-470 | a `REQUIRED:` text becomes exactly the new text and is counted, whatever it ends with: this branch has priority |
| MetadataText.DivEndingsExclusive | MetadataUpdates.py:77-82 | no text ends in both the escaped and the raw triple `DIV`, so the order of those two branches is immaterial |
| MetadataText.AppendKeepsOriginal | MetadataUpdates.py:83-88 | any other text is a prefix of the result, the new text is its suffix, a single `". "` joins them (`" "` after a text already ending in `.`), and the element is counted |
| MetadataText.TrailingDivsGetParagraph | ProjectSetupTool_Final.py:471-476 | a text whose only `DIV` run is the trailing one gets the paragraph inserted right before it, nothing else changes, and it is not counted |
| MetadataText.EveryDivRunRewritten | MetadataUpdates.py:77-82 | `str.replace` rewrites every triple-`DIV` run: a text with two runs gets the paragraph twice |
| MetadataText.DivRewriteNotRequired | ProjectSetupTool_Final.py:471-476 | replacing every triple-`DIV` run of a text that is not a `REQUIRED:` placeholder by a markup-led insert does not make it one |
| MetadataText.DivRewriteStaysDiv | ProjectSetupTool_Final.py:471-476 | a text rewritten by a `DIV` branch is not counted, still ends in the same sequence and is still no `REQUIRED:` placeholder, so repeating the request takes the same branch |
| MetadataText.ReplaceAllSkips | ProjectSetupTool_Final.py:473 | `str.replace` copies unchanged a prefix in which the pattern does not start |
| MetadataText.ReplaceAllLeadingMatch | ProjectSetupTool_Final.py:476 | `str.replace` replaces a leading match and continues the scan after it |
| MetadataText.ReplaceAllOnlyTrailing | ProjectSetupTool_Final.py:473 | `str.replace` on a text whose only match is at its end replaces just that match |
| MetadataText.ReplaceAllTwoRuns | MetadataUpdates.py:79 | `str.replace` replaces both of two non-overlapping matches |
| MetadataText.ReplaceAllKeepsSuffix | MetadataUpdates.py:82 | when the text and the replacement both end in the pattern, so does the result of `str.replace` |
| MetadataUpdate.ApplyToText | ProjectSetupTool_Final.py:461-499 | the per-mode effect on one element's text: only `update` and `replace` change it, and it is absent afterwards exactly when it was absent and the mode is not `replace` |
| MetadataUpdate.CountedModes | ProjectSetupTool_Final.py:461-499 | one element is counted in `replace` and `add` mode, and in `update` mode exactly when its text is present and takes the `REQUIRED:` or the append branch |
| MetadataUpdate.CountOf | ProjectSetupTool_Final.py:457-501 | the count of one request never exceeds the number of matched elements |
| MetadataUpdate.CountOfExtend | ProjectSetupTool_Final.py:460-499 | processing one more element raises the count by one exactly when that element is counted |
| MetadataUpdate.ReplaceAndAddCountAll | ProjectSetupTool_Final.py:486-501 | in `replace` and `add` mode the result equals the number of matched elements |
| MetadataUpdate.UnknownModeChangesNothing | MetadataUpdates.py:66-107 | an unrecognised mode returns 0 and leaves every text as it was |
| MetadataUpdate.UpdateSkipsMissingText | MetadataUpdates.py:71 | in `update` mode an element without text stays without text and adds nothing to the count |
| MetadataUpdate.UpdateCountsRequiredAndAppended | MetadataUpdates.py:74-88 | in `update` mode the count is exactly the number of present texts taking the `REQUIRED:` or the append branch; the `DIV` branches add nothing |
| MetadataUpdate.UpdateElement | ProjectSetupTool_Final.py:461-499 | one element after the request: its text is `ApplyToText`'s, its tag and attributes are kept, and in `add` mode exactly one fresh last child with the requested tag, attributes (none when none are given) and text is added; otherwise its children are kept; the element is counted as `ApplyToText` says |
| MetadataUpdate.UpdateMetadata | MetadataUpdates.py:63-107 | every matched element ends up as `UpdateElement` describes, and the result is `CountOf` the matched elements' original texts |
| MetadataUpdate.AbstractBranchFound | MetadataUpdates.py:141 | once the fallback's branch is the root's last child, `idinfo/descript/abstract` is found |
| MetadataUpdate.AppendAbstractBranch | MetadataUpdates.py:147-154 | the root gains exactly one fresh last child, `idinfo` holding only `descript` holding only a bare `abstract` with the abstract text; the root's other children, tag, text and attributes are kept |
| MetadataUpdate.AddMissingAbstract | ProjectSetupTool_Final.py:535-549 | the branch is added exactly when all three abstract paths and the `idinfo` child are absent, after which `idinfo/descript/abstract` is found; otherwise the root's children are unchanged |
| FeatureDatasets.FeatureDatasetsOf | ProjectSetupTool_Final.py:708-709 | the `feature_dataset` column of the rows, one entry per row, in row order |
| FeatureDatasets.FirstSeen | ProjectSetupTool_Final.py:707-710 | a list grown by appending each value it lacks holds no duplicates and holds exactly the values of the input |
| FeatureDatasets.FirstIndex | ProjectSetupTool_Final.py:709 | the position of the first occurrence: the value is there and nowhere before it |
| FeatureDatasets.FirstSeenOrder | ProjectSetupTool_Final.py:707-710 | the collected names appear in the order in which the rows first mention them |
| FeatureDatasets.AppendNewFeatureDatasets | ProjectSetupTool_Final.py:708-710 | the loop over one file's rows extends the list to `FirstSeen` of everything read so far |
| FeatureDatasets.GetCsvData | ProjectSetupTool_Final.py:704-718 | as written: with no second file the result is `FirstSeen` of the first file's names; with a second file it is `FirstSeen` of the second file's names only |
| FeatureDatasets.SecondConfigDropsFirst | ProjectSetupTool_Final.py:714 | a concrete pair of files: the first file's only name is missing from the list when the second file is given |
| FeatureDatasets.FirstFileOnlyNamesDropped | ProjectSetupTool_Final.py:711-718 | for all files: with a second file given, no name that only the first file uses is in the list |
| FeatureDatasets.GetCsvDataMerged | ProjectSetupTool_Final.py:704-718 | corrected: every name of either file is in the list, once, nothing else is, in first-seen order across both files |
| InOut.Classify | ProjectSetupTool_Final.py:422-426 | `IN` exactly for -1, `OUT` exactly for values of at least 1, no value exactly otherwise |

## Left out

- All GIS toolkit calls: clipping, selection, buffering, union, merging, overlays, field calculation, symbology, layer files and map documents. Their semantics are not visible in the repository, so which `FID_BufferPAB` values the union writes is not modelled; `Classify` covers every integer.
- `get_new_extent`: floating-point coordinate projection through the toolkit.
- File-system work: folder and geodatabase creation, CSV reading, XSLT export, writing the XML file, metadata import, temp-file removal, and the message printed by the fallback.
- Reading a CSV row without a `feature_dataset` column raises `KeyError`. Rows are given as records that always carry the column.
- The truthiness test on the second configuration path (an empty path counts as absent) is modelled as an `Option` of rows.
- ElementTree.Find: does not state that the element returned is the first one in document order, only that it is reached along the path.
- `findall` with general ElementPath syntax (`.//`, predicates). `UpdateMetadata` takes the matched elements as a sequence, which `findall` returns without repeats. `Find` covers only the plain child paths that the fallback uses.
- MetadataUpdate.UpdateMetadata: requires the matched elements to be pairwise distinct, as `findall` returns them. Called with one element twice, Python would apply the request to it twice.
- The utf-8 encode/decode round trip around the `update` rewrite and the timestamp strings. Text is a plain character sequence.
- The loop of `update_datasets` over its datasets and over the general request dictionary, and the dictionary contents themselves. Each request of that loop is one `UpdateMetadata` call on what its path matched. The fallback's own request dictionary has a single entry (`idinfo/descript`, `add` an `abstract` without attributes), and `AddMissingAbstract` applies it directly.
- `INFRA_RoadClip_New.py`. It is toolkit orchestration around a copy of the IN/OUT code block and does not parse as Python.
- The usage-day aggregation reports are not part of this model. Their code is not among the repository files modelled here.

## Findings

| source | as written | input that shows it | evidently intended | confidence | as-written member | corrected member |
|---|---|---|---|---|---|---|
| ProjectSetupTool_Final.py:714 | `fdlist` is reset to empty before the second configuration file is read, so only that file's feature datasets are returned and created (lines 756-758) | first file names `Hydrography`, second file names only `Transportation`: the list is `[Transportation]`, yet the first file's rows are still processed into their feature datasets (line 797) | the list holds the feature datasets of both files, each once | not executed | FeatureDatasets.GetCsvData, FeatureDatasets.SecondConfigDropsFirst | FeatureDatasets.GetCsvDataMerged |
