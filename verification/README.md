# Google-Doc to HTML post-processing, modelled in Dafny

The converter turns `.docx` documents into standalone HTML pages. An external tool does the
conversion itself. The repository's own logic is the small post-processing layer that runs
afterwards, in `convert_docx_to_html` of `conversion/googleDocToHTMLBulk.py`:

- **Heading normalisation.** When the document has no `h1`, its first paragraph becomes the
  `h1`. Then every `h1` whose stripped text matches `Title\s*\d+` is removed. The pattern
  ignores case and is anchored at the start.
- **Image embedding.** Every image relationship of the `.docx` is mapped to a
  `data:image/<format>;base64,<payload>` URI. Each `img` whose `src` is a key of that map
  takes the URI.
- **Cleanup.** The serialised markup loses its line breaks: `\r` becomes a space and `\n` is
  deleted. An optional "disruptive" string is then deleted the way `str.replace` deletes it.
- **File names.** These are the upload allow-list `allowed_file` of `main.py`, the bulk driver's
  `.endswith(".docx")` filter, and the output name (base name, last extension dropped, plus
  `.html`).
- **Bulk loop.** The bulk driver walks a folder listing and converts each selected document.
  The first error ends the run.

The model works on an abstract document: its elements in document order (`Markup.Element`:
tag, text fragments, optional `src`), with strings as `seq<char>`. Pure functions model the
operations. Lemmas relate them to independent characterisations: filters, first and last
occurrences, character-by-character rewrites, and inverses.

Modules:
- `Wrappers`: `Option` and `Result`.
- `Text`: Python's whitespace and digit classes, `str.strip`, `str.replace`, index search and
  ASCII lower-casing.
- `Seqs`: filtering and subsequences.
- `Markup`: the element list.
- `Headings`, `Images`, `Cleanup`, `FileNames`, `Conversion`: the converter's steps, in the
  order listed.

Some behaviours of the code that a reader might not expect are stated as lemmas:

- `str.replace` makes a single pass. Deleting "ab" from "aabb" leaves "ab"
  (`Cleanup.RemovalIsSinglePass`).
- `os.path.splitext` does not treat leading dots as an extension. As a result ".docx" and
  ".docx.docx" get the same output name, ".docx.html" (`FileNames.OutputNamesCanCollide`).
  Opening that file for writing truncates it, so the later conversion overwrites the earlier
  one; the model records both writes in `Conversion.BulkOutcome.written`.
- A hyperlink whose URL contains "image" counts as an image relationship. Its bytes cannot be
  read, so it fails its document and ends the bulk run (`Images.ExternalImageRefFails`,
  `Images.HyperlinkToImageFails`).
- A name ending in ".DOCX" passes the upload allow-list, but the bulk driver skips it
  (`FileNames.UpperCaseDocxIsNotListed`).
- A placeholder first paragraph is promoted and then removed, so the document ends up with
  no `h1` (`Headings.PromotedPlaceholderIsRemoved`).
- Line feeds are deleted, not turned into spaces (`Cleanup.CleanLineBreaks`).
- The first exception ends the whole bulk run, and the files written before it stay
  (`Conversion.BulkConvertStopsAtFirstError`).

## Model

| member | source | states |
|---|---|---|
| Headings.FindFirst | conversion/googleDocToHTMLBulk.py:48-52 | `soup.find(tag)`: None exactly when no element carries the tag, otherwise the position of the first one that does |
| Headings.PromoteFirstParagraph | conversion/googleDocToHTMLBulk.py:47-54 | with an `h1` anywhere, or with no `p`, the tree is unchanged. Otherwise exactly the first `p` gets tag `h1`, and every other element and position stays as it was |
| Headings.PromoteYieldsHeading | conversion/googleDocToHTMLBulk.py:48-54 | after promotion the tree has an `h1` if and only if it had an `h1` or a `p` before |
| Headings.JoinStripped | conversion/googleDocToHTMLBulk.py:59 | `get_text(strip=True)` never starts or ends with whitespace |
| Headings.JoinStrippedConcat | conversion/googleDocToHTMLBulk.py:59 | the text of two runs of fragments laid end to end is the two texts laid end to end, so the text is each fragment stripped, in order |
| Headings.TitleTextIff | conversion/googleDocToHTMLBulk.py:57-59 | the placeholder test holds if and only if the text starts with "title" in any case, then a possibly empty whitespace run, then a digit; the rest of the text is ignored |
| Headings.TitleMatchExamples | conversion/googleDocToHTMLBulk.py:57-59 | "Title 2 — Overview" and "title7" are placeholder titles |
| Headings.TitleMismatchExamples | conversion/googleDocToHTMLBulk.py:57-59 | "Titled Document", "My Title 1" and "Title" are not placeholder titles, because the match is anchored and needs a digit |
| Headings.SpacedTitleExample | conversion/googleDocToHTMLBulk.py:59 | the text of a paragraph holding " Title 1 " is "Title 1", which is a placeholder title |
| Headings.StripTitles | conversion/googleDocToHTMLBulk.py:56-60 | no placeholder-title `h1` is left, and the tree does not grow |
| Headings.StripTitlesRemovesExactlyPlaceholders | conversion/googleDocToHTMLBulk.py:58-60 | an element survives if and only if it is not a placeholder title. Survivors keep their multiplicity, no non-`h1` element is removed, and the result is a subsequence of the input (relative order kept) |
| Headings.StripWithoutHeading | conversion/googleDocToHTMLBulk.py:58-60 | a tree without `h1` comes through stripping unchanged |
| Headings.NormalizeHeadings | conversion/googleDocToHTMLBulk.py:47-60 | after promotion and stripping no placeholder title is left. With an `h1` already present, only stripping acts |
| Headings.PromotedPlaceholderIsRemoved | conversion/googleDocToHTMLBulk.py:51-60 | in a tree without `h1` whose first `p` reads as a placeholder title, the result is the tree without that `p`, and it has no `h1` |
| Headings.PlaceholderOnlyParagraphExample | conversion/googleDocToHTMLBulk.py:51-60 | a paragraph reading as a placeholder title, followed by an image, normalises to just the image |
| Text.Strip | conversion/googleDocToHTMLBulk.py:59 | `str.strip()`: the result neither starts nor ends with whitespace, and it is an infix of the input with only whitespace around it |
| Text.StripSurrounded | conversion/googleDocToHTMLBulk.py:59 | stripping undoes surrounding a trimmed text with whitespace |
| Images.DataUri | conversion/googleDocToHTMLBulk.py:20 | every data URI starts with "data:image/" |
| Images.DataUriRoundTrip | conversion/googleDocToHTMLBulk.py:20 | reading a data URI back gives the lower-cased format and the payload it was built from |
| Images.ImageRelations | conversion/googleDocToHTMLBulk.py:27-33 | on success every key contains "image" and every value is a data URI. On failure the reported reference contains "image" |
| Images.ImageRelationsFailsOnFirstUnloadable | conversion/googleDocToHTMLBulk.py:28-33 | building the map fails if and only if some image relationship cannot be read or decoded (an external target, or bytes the imaging library rejects), and then it fails on the first such relationship |
| Images.ExternalImageRefFails | conversion/googleDocToHTMLBulk.py:29-31 | an external relationship whose reference contains "image" fails the conversion, whatever picture it names |
| Images.HyperlinkToImageFails | conversion/googleDocToHTMLBulk.py:29-31 | a hyperlink to "https://example.com/image.png" fails its document |
| Images.ImageRelationsKeys | conversion/googleDocToHTMLBulk.py:28-33 | on success the keys are exactly the target references that contain "image" |
| Images.ImageRelationsHasKey | conversion/googleDocToHTMLBulk.py:29-33 | the reference of every image relationship is a key of a successful map |
| Images.ImageRelationsLastWins | conversion/googleDocToHTMLBulk.py:28-33 | each key maps to the data URI of the last relationship with that reference, an internal one with a decoded picture, because later dictionary stores overwrite earlier ones |
| Images.LastWinsFor | conversion/googleDocToHTMLBulk.py:33 | gives, for a key, the last relationship with that reference, and states that the key maps to that relationship's data URI |
| Images.SubstituteImages | conversion/googleDocToHTMLBulk.py:36-38 | length, tags and text are unchanged. An `img` whose `src` is a key takes the mapped URI. Every other element, including an `img` without `src` or with an unmapped `src`, is unchanged |
| Images.EmbeddedImagesAreDataUris | conversion/googleDocToHTMLBulk.py:27-38 | an `img` that points at an image relationship ends up with a data URI as its `src` |
| Images.SubstituteCommutesWithStrip | conversion/googleDocToHTMLBulk.py:56-63 | substituting sources before or after title stripping gives the same tree |
| Cleanup.CleanLineBreaks | conversion/googleDocToHTMLBulk.py:66 | the result equals the character-by-character rewrite (`\r` to a space, `\n` deleted, all else kept in order). It holds no `\r` or `\n`, and it is shorter by exactly the number of `\n` |
| Cleanup.CleanLineBreaksIdempotent | conversion/googleDocToHTMLBulk.py:66 | cleaning twice is cleaning once |
| Text.ReplaceAllIdentity | conversion/googleDocToHTMLBulk.py:66 | replacing `<br>` by `<br>` changes nothing |
| Cleanup.RemoveDisruptive | conversion/googleDocToHTMLBulk.py:69-70 | with no string or an empty one, the text is unchanged. Text without an occurrence is unchanged. Deletion never lengthens the text or adds a character |
| Cleanup.RemoveDisruptiveLeftmost | conversion/googleDocToHTMLBulk.py:70 | the leftmost occurrence is deleted, and the scan resumes behind it |
| Cleanup.RemoveBehindCleanPrefix | conversion/googleDocToHTMLBulk.py:70 | an occurrence preceded by text free of the string's first character is the next one deleted |
| Cleanup.RemoveThreeOccurrences | conversion/googleDocToHTMLBulk.py:70 | three occurrences, separated by text free of the string's first character, are all deleted and nothing else is |
| Cleanup.RemovalIsSinglePass | conversion/googleDocToHTMLBulk.py:70 | deleting "ab" from "aabb" leaves "ab": occurrences created by a deletion survive |
| Text.ReplaceAllWithoutOccurrence | conversion/googleDocToHTMLBulk.py:70 | `str.replace` leaves text without an occurrence unchanged |
| Text.ReplaceAllLeftmost | conversion/googleDocToHTMLBulk.py:70 | `str.replace` replaces the leftmost occurrence and continues behind it, so occurrences never overlap |
| Text.DeleteAllKeepsCharacters | conversion/googleDocToHTMLBulk.py:70 | deleting occurrences yields text no longer than the input, made of the input's characters |
| FileNames.AllowedFileIffLowerEndsWithDocx | main.py:22-23 | `allowed_file` holds if and only if the lower-cased name ends with ".docx". It never holds for a name without '.' |
| FileNames.AllowedFileExamples | main.py:22-23 | "a.tar.docx" and "Report.DOCX" are accepted: only the text after the last dot counts, and case is ignored |
| FileNames.RejectedFileExamples | main.py:22-23 | "report", "a.docx.zip" and "a.docx." are rejected |
| FileNames.DocxListingIsAllowed | main.py:22-23 | every name the bulk driver converts passes the upload allow-list |
| FileNames.UpperCaseDocxIsNotListed | conversion/googleDocToHTMLBulk.py:83 | a name ending in ".DOCX" passes the allow-list, yet the bulk driver skips it |
| FileNames.SelectDocx | conversion/googleDocToHTMLBulk.py:82-83 | every selected name ends in ".docx" |
| FileNames.SelectDocxExactly | conversion/googleDocToHTMLBulk.py:82-84 | the selected names are exactly the listed names ending in ".docx", with their multiplicity, in listing order |
| FileNames.Basename | conversion/googleDocToHTMLBulk.py:73 | the base name is a suffix of the path and holds no '/' |
| FileNames.BasenameOfJoin | conversion/googleDocToHTMLBulk.py:73 | the base name of a folder joined with a listing name is that name |
| FileNames.OutputName | conversion/googleDocToHTMLBulk.py:73 | every output name ends with ".html" and holds no '/' |
| FileNames.OutputNameOfDocx | conversion/googleDocToHTMLBulk.py:73 | a listed "<stem>.docx" is written as "<stem>.html" when the stem holds a character other than '.' |
| FileNames.OutputNameExample | conversion/googleDocToHTMLBulk.py:73 | "dir/report.docx" is written as "report.html" |
| FileNames.OutputNameOfDotsOnlyStem | conversion/googleDocToHTMLBulk.py:73 | when only dots precede ".docx", no extension is dropped: ".docx" is written as ".docx.html" |
| FileNames.OutputNameInjective | conversion/googleDocToHTMLBulk.py:73 | distinct listed names with ordinary stems get distinct output names |
| FileNames.OutputNamesCanCollide | conversion/googleDocToHTMLBulk.py:73 | ".docx" and ".docx.docx" get the same output name |
| Conversion.ConvertDocument | conversion/googleDocToHTMLBulk.py:40-70 | the document fails if and only if an image relationship cannot be read or decoded, and then names the first such relationship's reference. A successful output holds no line break |
| Conversion.BulkConvert | conversion/googleDocToHTMLBulk.py:81-84 | a run writes at most one file per listed name |
| Conversion.BulkConvertWritesInOrder | conversion/googleDocToHTMLBulk.py:81-84 | the files written are those of a prefix of the selected names, in listing order, each under its output name with its conversion's content |
| Conversion.BulkConvertStopsAtFirstError | conversion/googleDocToHTMLBulk.py:81-84 | without an error every selected name is written. With one, the run ends at the first failing selected name, right after the last file written |

## Left out

- Flask routes, flash messages, redirects, folder creation and clean-up, zip packaging,
  `send_file` and `secure_filename` in `main.py`: these are HTTP and file-system I/O.
- The external `.docx` to HTML converter and the HTML parser: the model starts from the
  element list. The serialiser is a parameter (`serialize`) of `Conversion.ConvertDocument`.
- Headings.StripTitles: nesting of the markup is not modelled. The tree is flattened into
  document order, and an element's text fragments already include its descendants' text. A
  removed `h1` takes only its own entry with it: an element nested inside it (an `img` inside
  a placeholder `h1`, say) is a separate entry of the flat list and survives in the model,
  whereas the parser's removal of the `h1` destroys it too.
- Reading the `.docx` relationships and decoding and re-encoding pictures with the imaging
  library: a relationship arrives with a flag saying whether its target is external, and
  with its decoded `Picture` (format name and base64 text), or None when decoding raises.
  Reading the bytes of an external target (a hyperlink, or a linked rather than embedded
  picture) raises before any decoding, so `Images.ImageRelations` fails on an external image
  relationship whatever its picture.
- Computing the base64 payload (section 4 of RFC 4648): it is taken as given text.
- `Images.ParseDataUri` is not in the source. It is the inverse that the round-trip lemma
  uses to show the data URI keeps its parts.
- Writing the output file and `print`. `Conversion.Written.name` is the file's name inside
  the output folder, without joining it to that folder.
- The folder listing itself: `os.listdir` is the `listing` parameter, and the conversion of
  one path is the `convert` parameter of `Conversion.BulkConvert`.
- Text.IsDigit: `\d` also matches non-ASCII decimal digits. Only ASCII digits are modelled.
- Text.Lower: ASCII lower-casing only. This is exact for comparing with "docx" and for the
  data URI of the imaging library's ASCII format names.
- Headings.MatchesLetterIgnoringCase: covers only the letters of "title": ASCII case, the
  capital I with dot (simple lower-casing gives 'i') and the dotless i (an extra equivalence of
  Python's regular-expression engine). It is not a general Unicode case folding.
- `os.path` is modelled for POSIX separators ('/') and relative listing names only.
