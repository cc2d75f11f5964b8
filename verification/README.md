# Verified model of the image-index lister

The program lists the operators of a catalog image. It pulls the image, extracts the
layers that carry the catalog into a cache directory, and prints each operator's channels
and bundles. Three parts of it are modelled, and what they promise is proved for all
inputs.

**The catalog rewrite.** A `catalog.json` is a stream of JSON objects without commas or
brackets. The program deletes every space, replaces each `}` newline `{` by `},{`, adds
brackets and parses the result. The rewrite knows nothing of strings or nesting.
`Json` holds the grammar of RFC 8259 with its layout and a parser; `JsonExact` proves the
parser to be the exact inverse of rendering. `Stripping`, `Boundary` and `Catalog` prove
what the rewrite does: a stream is read if and only if each separator is one newline
(spaces aside), and the objects come out in order with only the raw spaces of their string
literals gone. `Lexical`, `Nesting` and `Streams` say which other files are read: two scans
from left to right, one for broken tokens and one for brackets, decide whether a file that
is read was such a stream. `Decoding`, `Projection` and `ListingLaws` carry all this to the
decoded strings, to the fields of the objects and to the lines that are logged, and
`RoundTrip` writes catalogs that are read back.

**Layer extraction.** `Extraction` is the fold of filtered tar entries over a file tree
(`FileTree`), `ExtractionLaws` and `LayerLaws` give its exact success condition, its result,
what a failure leaves and what a second call does, `EntryLaws` says the same by the entries
of the layers, and `Filtering` compares it with extracting everything.

**The cache over runs.** `Collecting` is the operator branch of `Collect`. `CollectLaws`
proves what one run may touch and how cold and warm runs compare, `DescriptorLaws` which
files lead to the extraction and where other runs stop, and `OperatorLaws` what is listed
for each operator. `CacheLaws` is about all
references under one working directory and any sequence of runs: when a cache comes to
exist, that it is then frozen, when a failure is retried, and which references shadow
others. `ColdListing` gives the listing of a run that finds no cache as a function of the
image's layers, and the exact condition under which there is one.

`Disks`, `Manifests` and the class in `Collecting` are the same code in its imperative
form: objects whose methods change the file tree and the log, with loops, each proved
equal to the specification function that the laws are about. The log is an append-only
trace of (format, argument) pairs in `Log`.

What the proofs found, each stated as a lemma:

- The rewrite also accepts files that are not streams of JSON objects. A space in a token
  disappears, as in `{"key":nu ll}` (`ListingLaws.BrokenNullIsRead`). A newline for the comma
  between a closing and an opening brace, in an array at any depth or inside a string,
  becomes that comma (`Streams.NewlineForCommaIsRead`, `Streams.ArrayWithoutComma`,
  `Streams.NewlineInString`). Objects separated by commas are read
  (`Streams.CommaSeparatedIsRead`), and so are values that are not objects
  (`Streams.OtherValueIsRead`; the word `null` even counts as a configuration, `ListingLaws.NullIsRead`).
  These are all the cases: a file that is read was a stream if and only if no space stands
  inside a token, every boundary that is replaced closes a top-level object, no comma stands
  outside of all brackets, and what is read are objects (`Streams.CatalogExactly`).
- A key with spaces becomes a projected one: the name given under `"na me"` is listed as the
  bundle's (`ListingLaws.SpacedNameIsShown`), and so for every projected key and every place
  of the space (`Projection.SpacedKey`, `Projection.MendedMember`).
- Deleting a raw space between the two halves of an escaped surrogate pair changes the text
  instead of only shortening it (`Decoding.SplitPairJoins`), and an escaped space survives
  (`Decoding.EscapedSpaceSurvives`). These are the only two ways in which a decoded string
  does anything but lose its spaces (`Decoding.DecodeStripped`), and the second is the only
  way in which a space gets into the listing of a catalog
  (`ListingLaws.ListingShowsNoSpace`).
- The name filter can make an extraction fail that works without it, by dropping the entry
  that creates a kept file's directory (`Filtering.FilterCanFail`,
  `Filtering.FilterSucceedsExactly`).
- The image's label is used for the extraction but not for the listing, which always reads
  `/configs`: an image with another label is extracted and then not listed
  (`ColdListing.OtherLabelFails`; the condition is `ColdListing.ColdListsExactly`).
- The guard that skips a finished extraction looks beside the target instead of inside it
  exactly when the label is not empty and has no leading slash and the target ends in a
  proper name (`LayerLaws.GuardedPath`, `LayerLaws.GuardSoundExactly`); a directory there
  makes the program skip the extraction of an image that it never extracted
  (`LayerLaws.GuardSkips`, `ColdListing.SkippedExactly`).
- The registry is not part of the cache key: the same name and tag in another registry is
  not pulled, and the first one's operators are listed as its own
  (`CacheLaws.RegistriesCollide`). A name without a tag is not pulled once one of its tags is
  cached (`CacheLaws.UntaggedIsShadowed`). The exact condition for one reference to shadow
  another is `CacheLaws.ShadowedExactly`.
- A tag that is pulled when its name is already cached without a tag is extracted into that
  cache. For any nested key there is such a run (`ColdListing.Intruder`), and runs for keys
  that are not nested never reach into an existing cache (`ColdListing.LeftAloneExactly`).
- A run whose extraction is skipped or does not begin with a directory leaves no cache, so
  the next one pulls again (`CacheLaws.ColdAgainExactly`). A run that fails later leaves a
  partial cache that is never pulled again: for any reference there is such an image, and
  the runs after it can all succeed (`ColdListing.PartialCacheStays`).

## Model

| member | source | states |
|---|---|---|
| Text.ContainsExact | pkg/manifest/manifest.go:183 | the substring test holds exactly if the text has the needle at some position |
| Text.ReplaceIsSplitJoin | pkg/manifest/manifest.go:220 | leftmost non-overlapping replacement equals splitting at the pattern and joining with the replacement |
| Text.JoinOfSplit | pkg/index/list-images.go:61 | splitting loses nothing: joining the parts restores the text |
| Text.SplitAt | pkg/index/list-images.go:61 | splitting at one character distributes over a text cut at that character |
| Text.StripIsReplace | pkg/manifest/manifest.go:219 | the space filter is the replacement of a space by nothing |
| Text.StripChars | pkg/manifest/manifest.go:219 | exactly the non-space characters remain, and a text is unchanged exactly if it has no space |
| Text.TrimSlashesExactly | pkg/manifest/manifest.go:164-165 | one slash is trimmed at each end of the label and nothing else, for every label |
| Json.ParseValue | pkg/manifest/manifest.go:221 | what is parsed is legal by the grammar of RFC 8259 and renders to the text consumed |
| Json.ParseText | pkg/manifest/manifest.go:221 | a whole text that parses is one legal value between layout, and renders to itself |
| JsonExact.ValueExact | pkg/manifest/manifest.go:221 | every legal value is parsed back from its text, whatever follows that cannot prolong it |
| JsonExact.ParseTextExact | pkg/manifest/manifest.go:221 | a text parses as a syntax tree if and only if the tree is legal and renders to the text |
| JsonExact.Unambiguous | pkg/manifest/manifest.go:221 | no text has two legal syntax trees |
| JsonExact.Characters | pkg/manifest/manifest.go:221 | layout, raw characters, escapes and hexadecimal digits by their code points, as sections 2 and 7 of RFC 8259 give them |
| JsonExact.NumberExactly | pkg/manifest/manifest.go:221 | the numbers are exactly the minus sign, integer part, fraction and exponent of section 6 of RFC 8259 |
| Stripping.StripRender | pkg/manifest/manifest.go:219 | deleting spaces from a value's text is deleting them from layout and literals of its tree: no token is merged, split or broken |
| Stripping.StripMeaning | pkg/manifest/manifest.go:219 | the stripped tree means the original with raw spaces dropped from its literals |
| Stripping.DropSpacesExact | pkg/manifest/manifest.go:219 | the meaning is untouched exactly if no literal or key holds a raw space |
| Stripping.StrippedTextMeaning | pkg/manifest/manifest.go:219 | any valid text stays valid without its spaces, with the meaning above |
| Boundary.RepairPointwise | pkg/manifest/manifest.go:220 | the replacement keeps the length and changes only the middle of each occurrence |
| Boundary.RepairLeavesNone | pkg/manifest/manifest.go:220 | no boundary is left or created, a second pass changes nothing, and a text is unchanged exactly if it has none |
| Boundary.RepairSeam | pkg/manifest/manifest.go:220 | the replacement distributes over any cut that no boundary lies across |
| Boundary.RepairConcat | pkg/manifest/manifest.go:220 | chunks ending in a brace and starting with one are repaired separately and joined by a comma |
| Boundary.RepairChunks | pkg/manifest/manifest.go:220 | the same for any number of chunks |
| Boundary.NoBoundaryInside | pkg/manifest/manifest.go:219-220 | no valid JSON text contains the boundary, at any depth and with any strings |
| Catalog.StripObject | pkg/manifest/manifest.go:219 | an object text without its spaces is an object text with the stripped meaning |
| Catalog.RepairBody | pkg/manifest/manifest.go:220 | in a stream the replacement turns exactly the newline separators into commas, and their number is the number of replacements |
| Catalog.ParseJoined | pkg/manifest/manifest.go:220-221 | the rewritten items parse to the end if every separator was a newline, otherwise up to the object after the first that was not |
| Catalog.StreamRead | pkg/manifest/manifest.go:219-225 | main result: a stream in any legal layout is read if and only if every separator is one newline without its spaces, and then yields the objects in order without raw spaces |
| Catalog.StreamCount | pkg/manifest/manifest.go:219-221 | the number of objects read is one more than the number of boundaries |
| Catalog.BoundaryPositions | pkg/manifest/manifest.go:220 | the boundary text occurs exactly where two top-level objects meet with one newline |
| Catalog.StrippedBoundaryPositions | pkg/manifest/manifest.go:219-220 | the same positions for the stripped file |
| Lexical.ValidIsUnbroken | pkg/manifest/manifest.go:221 | in a valid JSON text no space stands inside a word, a number or an escape |
| Lexical.HiddenErrorsExactly | pkg/manifest/manifest.go:219 | a text that is valid without its spaces is valid with them if and only if a scan finds none of them inside a word, a number or an escape |
| Catalog.LooseStreamRead | pkg/manifest/manifest.go:219-225 | a stream of objects that need only be valid once their spaces are deleted is read if and only if every separator is one newline without its spaces, and yields the stripped objects in order |
| Catalog.StrippingHidesErrors | pkg/manifest/manifest.go:219 | what line 219 alone hides: a stream of objects that are valid without their spaces is read in full, while each was valid if and only if the scan finds no broken token in it |
| Nesting.TrackValue | pkg/manifest/manifest.go:221 | a valid value ends at the bracket depth where it begins, and every comma of it outside of strings is deeper |
| Streams.CatalogExactly | pkg/manifest/manifest.go:219-221 | main result on the whole rewrite: a file that is read was a stream of JSON objects with one newline between them, spaces aside, if and only if no space stands inside a token, no comma of the text without spaces stands outside of all brackets, every boundary in it closes a top-level object, and what is read are objects |
| Streams.NewlineForCommaIsRead | pkg/manifest/manifest.go:220 | an object with a newline for a comma between two braces, at any depth, is no JSON text, no stream and without broken tokens, and is read as if the comma were there |
| Streams.ArrayWithoutComma | pkg/manifest/manifest.go:220 | such a place: two objects of an array, under any key |
| Streams.NewlineInString | pkg/manifest/manifest.go:220 | such a place: the inside of a string, under any key |
| Streams.CommaSeparatedIsRead | pkg/manifest/manifest.go:219-221 | any two objects separated by a comma are read, and are no stream |
| Streams.OtherValueIsRead | pkg/manifest/manifest.go:219-221 | any value that is not an object is read, and is no stream |
| Decoding.DecodeEscaped | pkg/manifest/manifest.go:221 | every text is decoded back from its escapes, surrogate pairs included |
| Decoding.DecodeShort | pkg/manifest/manifest.go:221 | every text is decoded back from its characters and its two-character escapes |
| Decoding.ShortEscapes | pkg/manifest/manifest.go:221 | what each of the eight two-character escapes stands for |
| Decoding.HexDigitExactly | pkg/manifest/manifest.go:221 | a hexadecimal digit counts its place among the sixteen, in either case |
| Decoding.UnicodeEscape | pkg/manifest/manifest.go:221 | an escape stands for the code unit of its four digits, and half of a pair for U+FFFD |
| Decoding.DecodeStripped | pkg/manifest/manifest.go:219-221 | the decoded string loses its spaces and nothing else, if and only if no space is escaped and no surrogate pair is split by raw spaces |
| Decoding.EscapedSpaceSurvives | pkg/manifest/manifest.go:219 | a literal for which it fails: an escaped space is still there after the deletion |
| Decoding.SplitPairJoins | pkg/manifest/manifest.go:219 | literals for which it fails: for every character above U+FFFF, two surrogates with a space between them become that character |
| Projection.ConfigDecoded | pkg/api/v1alpha3/types.go:197-202 | every projected string is the decoding of one literal, the last given for its key |
| RoundTrip.ConfigTypedExactly | pkg/api/v1alpha3/types.go:197-202 | an object is accepted if and only if every member with a projected key, in it and in its entries, has a value of its type or null |
| RoundTrip.WrittenIsRead | pkg/manifest/manifest.go:212-226 | for every list of objects, the file of their texts with newlines between is read as these objects without raw spaces |
| RoundTrip.CatalogReadsBack | pkg/manifest/manifest.go:212-226 | every list of configurations, with any texts in it, has a catalog file that is read as exactly that list |
| Projection.StableExactly | pkg/manifest/manifest.go:219 | a key is stable if and only if the deletion neither makes it nor unmakes it any projected key |
| Projection.SpacedKey | pkg/manifest/manifest.go:219 | every projected key spelled with a space, at any place, is that key after the deletion and not before |
| Projection.MendedMember | pkg/manifest/manifest.go:219 | a member with such a key is not projected before the deletion, and gives the field its value after it |
| Projection.ConfigMended | pkg/api/v1alpha3/types.go:197-202 | where no key becomes a projected one, deleting the spaces of all keys changes nothing that is projected |
| Projection.StripToConfig | pkg/api/v1alpha3/types.go:197-202 | for every object: after the deletion it projects exactly if it does with the spaces in its keys deleted, and every projected string has then lost its spaces and no more if and only if all projected literals are plain |
| ListingLaws.StreamConfigs | pkg/manifest/manifest.go:128-131 | end to end for every stream: the read fails exactly on a bad separator or an object mistyped without the spaces in its keys; what is read are those objects with all strings stripped, if and only if all projected literals are plain |
| ListingLaws.SpacedNameIsShown | pkg/manifest/manifest.go:152-153 | for every spelling of the key name with spaces and every string: a bundle without a name is listed under that string |
| ListingLaws.BrokenNullIsRead | pkg/manifest/manifest.go:219-225 | for every key, the file whose only member is the word null broken by a space is no JSON and no stream, and is read without an error |
| ListingLaws.NullIsRead | pkg/manifest/manifest.go:219-225 | the word null is no stream, and is read as one empty configuration |
| Projection.SpaceDecoded | pkg/manifest/manifest.go:219 | a literal decodes to a text with a space if and only if it holds a raw or an escaped one |
| ListingLaws.ListingShows | pkg/manifest/manifest.go:133-155 | line by line, the listing shows the decoded literals of the objects that were read, taking for each field the last string given |
| ListingLaws.ListingShowsNoSpace | pkg/manifest/manifest.go:125-157 | for every catalog that is read, the listing shows no space if and only if no literal it shows spells one as an escape |
| ListingLaws.ListingReadsBack | pkg/manifest/manifest.go:133-155 | channels with their entries, and bundles, can be read back from the logged lines: the listing loses nothing it shows |
| FileTree.ResolveSlash | pkg/manifest/manifest.go:187 | joining names with a slash resolves to the concatenation of their paths |
| FileTree.MissingExact | pkg/manifest/manifest.go:87 | the existence test says missing exactly if nothing is there and no regular file is on the way |
| FileTree.MakeAllExact | pkg/manifest/manifest.go:187 | creating a directory with its ancestors succeeds exactly if no regular file is on the way, makes those directories and changes nothing else |
| FileTree.WriteWellFormed | pkg/manifest/manifest.go:192-196 | writing a file in an existing directory changes that path only and keeps the tree well formed |
| FileTree.MissingForced | pkg/manifest/manifest.go:87 | one path being missing implies that another is, in every tree, if and only if the first is on the way to the second |
| FileTree.PresentForced | pkg/index/list-images.go:67 | a directory being there implies that a path is not missing, in every tree, if and only if that path is on the way to it |
| FileTree.BeforeExactly | pkg/index/list-images.go:129 | a name comes before another if and only if it is a proper beginning of it or has the smaller character where they first differ |
| FileTree.ReadDirExactly | pkg/index/list-images.go:129 | a directory's entries are exactly its children's names, in ascending order; nothing else can be read |
| FileTree.DirectoryNameExactly | pkg/manifest/manifest.go:192 | a name can only be a directory's if and only if its last part is empty or a dot |
| Disks.Disk.MkdirAll | pkg/manifest/manifest.go:187 | succeeds exactly if no regular file is on the way; then every path on the way holds a directory and every other path what it held, and on error nothing changes |
| Disks.Disk.Create | pkg/manifest/manifest.go:192 | fails exactly for a name that can only be a directory or a path that cannot be created, changing nothing; otherwise the path holds an empty file and every other path what it held |
| Disks.Disk.Fill | pkg/manifest/manifest.go:196 | the created file holds the data, and every other path what it held |
| Extraction.RunConcat | pkg/manifest/manifest.go:88-100 | performing two lists of actions is performing the second after the first, unless the first fails |
| Extraction.RunWellFormed | pkg/manifest/manifest.go:172-206 | the tree stays well formed after every action, on success and on error |
| Extraction.RunLayersWellFormed | pkg/manifest/manifest.go:88-100 | the same through all layers |
| Manifests.Manifest.UntarEntry | pkg/manifest/manifest.go:183-205 | one entry: not selected, a directory, a file with the entry's data, or each error, with the effect at every path |
| EntryLaws.EntryExactly | pkg/manifest/manifest.go:183-205 | the same of the specification of an entry |
| Manifests.Manifest.Untar | pkg/manifest/manifest.go:162-208 | the loop over an archive leaves the disk and the failure of its actions in order |
| Manifests.Manifest.ExtractLayer | pkg/manifest/manifest.go:89-99 | one layer: digest check, index panic, missing blob, then the archive |
| Manifests.Manifest.ExtractLayersOCI | pkg/manifest/manifest.go:84-105 | the guarded loop over layers leaves the disk, failure and log of the specification |
| Manifests.Manifest.ListCatalogs | pkg/manifest/manifest.go:125-157 | the log grows by exactly the lines of the catalog's objects in order, or by nothing on error |
| Manifests.TraceOfStream | pkg/manifest/manifest.go:125-157 | end to end for every catalog file that is a stream: nothing is logged exactly on a bad separator or a mistyped object; otherwise the lines show the decoded literals of the objects without raw spaces, and with plain literals they are those of the objects in order, strings stripped |
| Manifests.Manifest.LogConfig | pkg/manifest/manifest.go:134-154 | the lines of one object: channel with entries, bundle, or nothing |
| Manifests.Manifest.LogEntry | pkg/manifest/manifest.go:137-150 | name, then replaces if any, each skip, then the skip range if any |
| ExtractionLaws.LastWriterWins | pkg/manifest/manifest.go:172-206 | after success each written path holds its last writer's bytes, requested directories and ancestors exist, all else is unchanged |
| ExtractionLaws.SuccessExact | pkg/manifest/manifest.go:183-199 | success if and only if nothing halts, data is intact, no path is both file and directory, and each file's parent is there before or made earlier |
| ExtractionLaws.RunAgain | pkg/manifest/manifest.go:172-206 | after success the same actions succeed again and change nothing |
| ExtractionLaws.FailureLeavesPrefix | pkg/manifest/manifest.go:179-198 | a failed run has an action that fails after all before it succeeded; the run returns its failure and leaves its tree, and nothing of that action remains but a partly copied file |
| ExtractionLaws.FailureIsUnique | pkg/manifest/manifest.go:179-198 | there is only one such action |
| ExtractionLaws.EffectiveRun | pkg/manifest/manifest.go:172-206 | any run, failed or not, leaves what a successful run of the actions that took effect leaves |
| ExtractionLaws.MissingAfter | pkg/manifest/manifest.go:172-206 | after success a path is missing if and only if it was and no action made a directory at or below it or a file at or above it |
| LayerLaws.RunLayersFrame | pkg/manifest/manifest.go:88-100 | outside the target only missing ancestors of the target may become directories |
| LayerLaws.LayersArePlan | pkg/manifest/manifest.go:88-100 | the nested loops are one run of a plan fixed before the first write, as long as blobs and target lie apart |
| LayerLaws.ExtractOutcome | pkg/manifest/manifest.go:84-105 | a call that extracts succeeds exactly if its plan is feasible, and then leaves the outcome above |
| EntryLaws.EntriesWin | pkg/manifest/manifest.go:84-105 | after a successful extraction each path holds the data of the last selected file entry for it in (layer, position) order, else a directory if a selected directory entry lies at or below it, else what it held |
| EntryLaws.ExtractSucceedsExactly | pkg/manifest/manifest.go:84-105 | an extraction succeeds if and only if every digest names an archive read to its end, all data is intact, no selected path is both file and directory, and each selected file's parent is there before or made by an earlier entry |
| EntryLaws.OnlySelectedChange | pkg/manifest/manifest.go:164-183 | whatever its outcome, an extraction changes a path only on the way to an entry whose name contains the label, given with or without slashes at its ends |
| EntryLaws.LayerStops | pkg/manifest/manifest.go:89-95 | why a layer cannot be read: another kind of digest, no colon, no such file, a directory, or no gzip |
| LayerLaws.ExtractAgain | pkg/manifest/manifest.go:87-103 | a second call after success succeeds and changes nothing, whether the guard skips it or not |
| LayerLaws.FailingLayer | pkg/manifest/manifest.go:88-98 | the layer at which a failed extraction stops: all layers before it succeeded and the result is its own |
| LayerLaws.FailingEntry | pkg/manifest/manifest.go:172-206 | the entry at which a failed archive stops: all entries before it succeeded and the result is its own |
| LayerLaws.ExtractFailure | pkg/manifest/manifest.go:88-98 | a failed call fails at one entry j of one layer i: the layers before i and the entries before j are extracted, nothing after is touched, and the failure returned is that of the failing step |
| LayerLaws.FirstAction | pkg/manifest/manifest.go:183-195 | a target that does not exist comes to exist if and only if the plan begins with a directory; otherwise nothing at all is done |
| LayerLaws.GuardedPath | pkg/manifest/manifest.go:87 | the path that the guard looks for, for every label: it is at or below the target if and only if the label is empty or begins with a slash, or the target has no proper last name |
| LayerLaws.GuardSoundExactly | pkg/manifest/manifest.go:87 | the same condition is exact for the guard to let every extraction into a missing target go ahead |
| LayerLaws.GuardSkips | pkg/manifest/manifest.go:87-103 | for every label without a leading slash, a tree in which the call extracts nothing into a missing target and reports success |
| Filtering.LabelInherited | pkg/manifest/manifest.go:164-183 | an entry below a path whose name contains the label contains it too |
| Filtering.InheritedExactly | pkg/manifest/manifest.go:183 | that holds of an entry name for all labels and paths if and only if the name spells its path |
| Filtering.CanonicalForms | pkg/manifest/manifest.go:183 | names with or without a leading "./" or a trailing slash spell their path |
| Filtering.FilterFusion | pkg/manifest/manifest.go:162-208 | where both succeed, filtered and full extraction agree on every path whose name contains the label |
| Filtering.FilterSucceedsExactly | pkg/manifest/manifest.go:183-199 | where full extraction succeeds, the filtered one does if and only if every kept file finds its parent |
| Filtering.FilterCanFail | pkg/manifest/manifest.go:183-195 | archives that extract in full but not with the filter |
| Collecting.Collector.FetchManifest | pkg/index/list-images.go:98-125 | manifest, config, label and extraction leave the disk, outcome and log of the specification |
| Collecting.Collector.FetchCopied | pkg/index/list-images.go:84-125 | the whole descriptor chain, with each error return and each panic |
| Collecting.Collector.FetchAll | pkg/index/list-images.go:68-125 | copy directory, pull and descriptor chain |
| Collecting.Collector.ListAll | pkg/index/list-images.go:128-142 | the listing of the configs directory, or an error if it cannot be read |
| Collecting.Collector.Run | pkg/index/list-images.go:61-143 | a run leaves exactly the disk, outcome and log of the specification |
| DescriptorLaws.ReachesExactly | pkg/index/list-images.go:84-121 | a run that has copied the image reaches the extraction with a label and layers if and only if the index names a blob that is a manifest with these layers, whose config names a blob with that label |
| DescriptorLaws.ChainRun | pkg/index/list-images.go:66-132 | the whole run along such a chain: the lines logged, the tree, and the outcome |
| DescriptorLaws.NothingCopied | pkg/index/list-images.go:68-80 | what is returned and logged if the copy directory cannot be made or the copy fails |
| DescriptorLaws.IndexStops | pkg/index/list-images.go:84-97 | what is returned and logged for each way in which the index cannot be used |
| DescriptorLaws.ManifestStops | pkg/index/list-images.go:97-109 | the same for the manifest |
| DescriptorLaws.ConfigStops | pkg/index/list-images.go:109-113 | the same for the config |
| DescriptorLaws.OtherRuns | pkg/index/list-images.go:64 | a run whose image index does not name operators does nothing in this branch |
| DescriptorLaws.NothingListed | pkg/index/list-images.go:128-142 | a run that does not succeed lists nothing |
| OperatorLaws.RunListing | pkg/index/list-images.go:128-142 | the listing of a successful run: between an operator's line and the next stand exactly the lines of its catalog, or one error line if there is no such file or it cannot be read |
| CollectLaws.KeyOfTagged | pkg/index/list-images.go:61-62 | for prefix/name:tag the key is name/tag, whatever the prefix |
| CollectLaws.KeyExactly | pkg/index/list-images.go:61-62 | the key of any reference is what follows its last slash with every colon made a slash and nothing else changed |
| CollectLaws.TaggedKeys | pkg/index/list-images.go:61-62 | the key is injective on (name, tag), and different keys have directories that do not contain each other |
| CollectLaws.Directories | pkg/index/list-images.go:66-68 | the cache and copy directories resolve below the working directory |
| CollectLaws.BlobsApart | pkg/index/list-images.go:120-121 | the blobs directory and the extraction target never contain each other |
| CollectLaws.BlobAddress | pkg/index/list-images.go:97-120 | a digest sha256:hex passes the checks and splits in range, and manifest, config and layer files are all at copyDir/blobs/sha256/hex |
| CollectLaws.CollectFrame | pkg/index/list-images.go:66-126 | one run keeps the tree well formed and everything outside its copy and cache directories |
| CollectLaws.WarmRun | pkg/index/list-images.go:67-142 | once the cache directory exists a run pulls nothing and changes nothing |
| CollectLaws.ColdAndWarm | pkg/index/list-images.go:66-142 | from no cache, if the first of any number of runs succeeds all succeed with the same listing, only the first pulls, and later ones change no file |
| CollectLaws.EarlyStopStaysCold | pkg/index/list-images.go:66-113 | a run that stops before the extraction leaves the cache directory missing |
| CollectLaws.RunElsewhere | pkg/index/list-images.go:66-125 | a run for an unrelated key changes nothing in this cache, nor whether it exists |
| CacheLaws.RunIsWork | pkg/index/list-images.go:66-126 | any run, whatever its outcome, leaves what the actions that took effect make of the tree after the pull |
| CacheLaws.ColdAfterRun | pkg/index/list-images.go:66-126 | after a run for any key, a cache is missing if and only if it was missing and the run's actions avoid it |
| CacheLaws.RetriedExactly | pkg/index/list-images.go:66-83 | over any runs in one working directory, a cache ends missing if and only if it began so and no run made it exist; and a run with this key tries to pull if and only if that holds of the runs before it |
| CacheLaws.ColdAgainExactly | pkg/index/list-images.go:66-126 | after a run that finds no cache there is again none if and only if it stopped before the extraction, or the extraction was skipped, empty, or did not begin with a directory |
| CacheLaws.CacheIsFrozen | pkg/index/list-images.go:66-126 | once it exists, a cache exists through any runs and failures, no run with its key or a key it lies in pulls, and nothing in it changes except in the caches of keys nested in it |
| CacheLaws.NestedIntrudes | pkg/index/list-images.go:61-126 | a run for a nested key that does anything makes its directory inside this cache |
| ColdListing.LeftAloneExactly | pkg/index/list-images.go:61-126 | runs for another reference leave an existing cache alone, in every tree and for every image, if and only if its key is not nested in this one's or it is no operator run |
| ColdListing.Intruder | pkg/index/list-images.go:61-126 | for every nested key, a tree with this cache and an image that is extracted into it |
| ColdListing.PartialCacheStays | pkg/index/list-images.go:66-126 | for every reference without a cache, an image whose extraction fails after its first entry: the cache is there, no later run with the key pulls, and with the hard-coded directory they all succeed |
| CacheLaws.FailuresAreRetried | pkg/index/list-images.go:66-113 | while the runs with related keys pull nothing or stop early, the cache stays missing and every run with its key tries again |
| CacheLaws.ShadowedExactly | pkg/index/list-images.go:61-67 | a cached reference keeps another from being pulled, in every tree, if and only if the other's key is the same or a beginning of its key |
| CacheLaws.ShadowedRun | pkg/index/list-images.go:66-142 | such a run pulls and changes nothing, and with the same key lists the operators of the cached one |
| CacheLaws.RegistriesCollide | pkg/index/list-images.go:61-67 | after a successful run for a name and tag, a run for them in another registry pulls nothing and lists the first one's operators |
| CacheLaws.UntaggedIsShadowed | pkg/index/list-images.go:61-67 | an untagged reference is not pulled once some tag of its name is cached |
| ColdListing.GuardOfCache | pkg/manifest/manifest.go:87 | the guard of a run looks at or below its cache if and only if the label is empty or begins with a slash, or the key ends in no name; and never outside the directory of all caches |
| ColdListing.SkippedExactly | pkg/index/list-images.go:120-132 | a run that finds no cache skips the extraction if and only if the guard's path was there before the run, never for a label with a leading slash; then the cache stays missing and the listing fails |
| ColdListing.ColdListsExactly | pkg/index/list-images.go:66-132 | a run that finds no cache lists if and only if it reaches the extraction, does not skip it, its plan is feasible, and the plan makes the hard-coded configs directory |
| ColdListing.OtherLabelFails | pkg/index/list-images.go:115-132 | for any other label there is a sound image that is extracted in full and not listed |
| ColdListing.ColdListing | pkg/index/list-images.go:66-142 | the listing of a run that finds no cache as a function of the layers: the sorted names they put into the configs directory, each with the lines of the last catalog.json written for it |
| OperatorLaws.ColdByEntries | pkg/index/list-images.go:66-142 | the same by entries: which operators a run that finds no cache lists, and that each one's catalog is the data of the last selected entry for it |
| ColdListing.ListingOfImage | pkg/index/list-images.go:66-142 | two such runs with the same image list the same, whatever else is on their disks |
| ColdListing.ListingNames | pkg/index/list-images.go:129-142 | a successful run names exactly the entries of the configs directory, once each and sorted |

## Left out

- The release branch of Collect (pkg/index/list-images.go:145-203): its extraction target is joined without separators and is not the directory it later reads.
- Path components `..` and symbolic links: `..` is treated as an ordinary name; whiteouts and tar types other than directory and regular file do nothing, and the warning printed for them is not in the trace.
- gzip and tar decoding, and the JSON decoding of index, manifest and image config: parameters of the model, total functions of a file's contents.
- pkg/mirror: `Mirror.Run` is a step that succeeds or fails and leaves arbitrary contents below the copy directory.
- Device errors, permissions and the log file that Collect creates (pkg/index/list-images.go:53-57).
- Go's struct decoding beyond the projected string fields: case-insensitive keys, merging of duplicate list keys, and type errors in `properties` and `relatedImages`.
- The nesting limit of Go's JSON decoder (10000 levels), repair of invalid UTF-8, and non-scalar character codes in the text.
- The empty pattern in string splitting and replacement: the code only passes non-empty literals.
- Filtering.FilterFusion: asks that entry names spell their path, up to a leading `./` and a trailing slash; `Filtering.InheritedExactly` proves that this is what the filter needs.
- LayerLaws.LayersArePlan: asks that blobs and target lie apart, which `CollectLaws.BlobsApart` proves for every run.
- Runs in different working directories: the program always uses the one of pkg/cli/executor.go:153, and `CacheLaws` asks that all runs share it.
- A cache that a failed extraction left half filled is not repaired by later runs; no completeness of the cache is claimed after such a failure.
- pkg/cli, pkg/log beyond the trace, pkg/api/v1alpha2 and the unused fields of pkg/api/v1alpha3.
