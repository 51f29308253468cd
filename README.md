# Markd-AI annotation extraction and prompt building, in Dafny

Markd-AI reads the annotations of a PDF file and asks a generative model to
summarise them as Markdown. This project models the two steps of that
pipeline that are plain program logic:

- **Extraction** (`extract_pdf_annotations`). The pages are walked in order.
  On each page that has an `/Annots` entry, every annotation whose `/Subtype`
  is `/Highlight` or `/Text` becomes a record. The record holds:
  - the 1-based page number;
  - the subtype itself;
  - `str()` of `/Contents`, defaulting to `""`;
  - `/T` and `/CreationDate`, defaulting to `""`;
  - `/Rect`, defaulting to `[]`.
- **Prompt building** (the first part of `stream_annotations_to_markdown`).
  - An empty list yields the one fixed message `未找到任何注释进行处理。`, and
    no model is called.
  - Otherwise the prompt is three fixed instruction lines followed by three
    lines per annotation:
    - `- 第 {page} 页:`, where the page defaults to `未知`;
    - `  - 类型: {type}`, where the type defaults to `/Text` and has every `/`
      removed;
    - `  - 内容: {contents}`, where the contents default to `N/A` and are
      stripped of surrounding whitespace.
  - The lines are joined with newlines and handed to the named model.

Modules:

- `Optional` (option.dfy): the Option type.
- `PdfObjects` (pdf_objects.dfy):
  - resolved PDF values: names, text strings, numbers and arrays;
  - annotation dictionaries;
  - `dict.get`, equality with a Python string, and `str()` of a value.
- `PyStrings` (py_strings.dfy): the Python string built-ins the builder
  uses, each with a partner:
  - `str.strip()`, with a padding law and idempotence;
  - `str.replace(c, "")`, with a multiset law;
  - `"\n".join`, with `split` as its inverse;
  - `str()` of an integer, with decimal parsing as its inverse.
- `Extraction` (extraction.dfy):
  - `Extract`, the specification of the extractor;
  - `ExtractPdfAnnotations`, the nested append loop, proved equal to it;
  - lemmas on kinds, page numbers, membership, count and order.
- `Prompt` (prompt.dfy):
  - `BuildPrompt`, the specification of the prompt;
  - `StreamAnnotationsToMarkdown`, the empty check and the prompt loop,
    proved against it;
  - lemmas on the prompt's shape, its defaults and the lines of extracted
    records.

The input to the builder is a list of `Entry` values. Each of the keys
`page`, `type` and `contents` is an `Option`, which models `dict.get` with a
default. `EntryOf` turns an extracted record into an entry in which every key
is present.

The model stops at the request the generator would send: a `ModelCall` holding
the model name and the prompt.

The command-line entry point `main` (markdai/core.py:84-126) never calls
`stream_annotations_to_markdown`: lines 109-114, which would do so, are
commented out. Only extraction is reached from the command line. The prompt
builder is modelled as written, as a function that nothing calls.

## Model

| member | source | states |
|---|---|---|
| PdfObjects.ToStr | markdai/core.py:33 | `str()` of a name or text string is its own text; an array renders in brackets |
| Extraction.KeptMeaning | markdai/core.py:28-29 | an annotation passes the filter exactly when it has a `/Subtype` that is a name or text string reading `/Highlight` or `/Text`; an absent subtype, a number or an array never passes |
| Extraction.Record | markdai/core.py:30-37 | a record carries the page number it is given, and its type is `/Highlight` or `/Text` |
| Extraction.RecordFields | markdai/core.py:30-37 | the type is the subtype itself; absent `/Contents`, `/T` and `/CreationDate` give the empty string and absent `/Rect` the empty array; present `/T`, `/CreationDate` and `/Rect` pass through unchanged; a present `/Contents` is stored as its `str()`, which for a name or text string is its own text |
| Extraction.ExtractPdfAnnotations | markdai/core.py:19-41 | the nested loop over pages and annotations returns exactly `Extract(pages)` |
| Extraction.PageRecords | markdai/core.py:24-38 | every record of a page carries that page's number and a kept type |
| Extraction.Extract | markdai/core.py:22-38 | every record has a kept type and a page number in 1..number of pages |
| Extraction.ExtractPagesOrdered | markdai/core.py:22-38 | page numbers never decrease along the result |
| Extraction.PageRecordsMembership | markdai/core.py:24-38 | a record comes out of a page if and only if it is the record of one of that page's kept annotations |
| Extraction.ExtractMembership | markdai/core.py:22-38 | a record is extracted if and only if some kept annotation on some page yields it, with page index + 1 as its number |
| Extraction.PageRecordsLength | markdai/core.py:24-38 | a page yields exactly one record per kept annotation |
| Extraction.ExtractLength | markdai/core.py:22-41 | the result has exactly one record per kept annotation in the document: nothing is dropped and nothing is deduplicated |
| Extraction.EmptyIffNothingKept | markdai/core.py:20-41 | the result is empty if and only if the document has no highlight or text note |
| Extraction.ExtractPageOrder | markdai/core.py:22-38 | the records numbered p + 1 are exactly page p's kept annotations in stored order; a page without `/Annots` contributes none |
| PyStrings.LStrip | markdai/core.py:68 | the result is no longer than the input and does not start with whitespace |
| PyStrings.RStrip | markdai/core.py:68 | the result is no longer than the input and does not end with whitespace |
| PyStrings.Strip | markdai/core.py:68 | the result is no longer than the input and has whitespace at neither end |
| PyStrings.StripPadding | markdai/core.py:68 | stripping whitespace padding from a trimmed core gives back exactly that core |
| PyStrings.StripIdempotent | markdai/core.py:68 | stripping twice is the same as stripping once |
| PyStrings.Without | markdai/core.py:69 | after `replace(c, "")` the character no longer occurs, and the string is no longer |
| PyStrings.WithoutMultiset | markdai/core.py:69 | `replace(c, "")` removes every occurrence of `c` and keeps every other character, with its count |
| PyStrings.WithoutConcat | markdai/core.py:69 | removing a character from a concatenation removes it from each part |
| PyStrings.WithoutAbsent | markdai/core.py:69 | removing a character that does not occur leaves the string unchanged |
| PyStrings.Join | markdai/core.py:76 | `sep.join(parts)` is empty for no parts and otherwise starts with the first part; `Split` is its inverse partner, used only by `SplitJoin` |
| PyStrings.SplitJoin | markdai/core.py:76 | joining with a separator that no part contains, then splitting, gives the parts back |
| PyStrings.JoinAppend | markdai/core.py:76 | joining one more part adds the separator and that part at the end |
| PyStrings.JoinConcat | markdai/core.py:76 | joining two non-empty lists gives their two joins with one separator between them |
| PyStrings.NatToDecimal | markdai/core.py:72 | `str(n)` is a non-empty string of digits with no leading zero unless n is 0 |
| PyStrings.DecimalRoundTrip | markdai/core.py:72 | reading back the digits of `str(n)` gives n |
| PyStrings.IntToStr | markdai/core.py:72 | `str(i)` is non-empty and starts with a minus sign exactly when i is negative |
| PyStrings.IntToStrRoundTrip | markdai/core.py:72 | the digits after the optional minus sign read back as the absolute value of i |
| Prompt.PageText | markdai/core.py:70-72 | an absent page shows as `未知`; a page number of 1 or more shows as digits with no leading zero |
| Prompt.TypeLabel | markdai/core.py:69 | the type as shown contains no `/` |
| Prompt.ContentText | markdai/core.py:68 | the content as shown has whitespace at neither end and is no longer than the given contents |
| Prompt.PageLineValue | markdai/core.py:70-72 | the page line names the entry's page: between its marker and suffix it shows `未知` when the page is absent, for a page of 0 or more, digits that read back as the page number; for a negative page, a minus sign followed by digits that read back as its absolute value |
| Prompt.TypeLine | markdai/core.py:73 | the line is `  - 类型: ` followed by exactly the type as shown, which has no `/` |
| Prompt.ContentLine | markdai/core.py:74 | the line is `  - 内容: ` followed by exactly the content as shown, which is trimmed |
| Prompt.BuildPrompt | markdai/core.py:60-76 | the prompt is the preamble's text; when there are entries, it is followed by one newline and the entries' lines joined by newlines |
| Prompt.AppendBlocks | markdai/core.py:66-74 | the loop appends every element's lines, in input order, after the lines already gathered |
| Prompt.StreamAnnotationsToMarkdown | markdai/core.py:43-76 | the model is called if and only if the list is non-empty; an empty list yields only the fixed message; otherwise the named model, by default `gemini-1.5-flash-latest`, receives `BuildPrompt(annotations)` |
| Prompt.BlocksAppend | markdai/core.py:66-74 | one more element appends its block after the others |
| Prompt.BlocksShape | markdai/core.py:66-74 | with three lines per block, element i occupies lines 3i to 3i + 2 |
| Prompt.HeadedBlocksShape | markdai/core.py:60-74 | after a fixed head, element i's three lines sit at positions head length + 3i to head length + 3i + 2 |
| Prompt.PromptPartsShape | markdai/core.py:60-74 | the prompt has 3 + 3n lines: the preamble first, then entry i's page, type and content lines at positions 3 + 3i to 5 + 3i |
| Prompt.BuildPromptAppend | markdai/core.py:66-76 | one more entry adds a newline and its block's text at the end of the prompt: input order is kept and no entry is skipped |
| Prompt.BlockText | markdai/core.py:72-76 | a block's text is its page, type and content lines, separated by newlines |
| Prompt.SlashFree | markdai/core.py:69 | removing `/` from `/` + a slash-free name gives the bare name |
| Prompt.DefaultType | markdai/core.py:69 | an absent type shows as `Text` |
| Prompt.DefaultContent | markdai/core.py:68 | absent contents show as `N/A`; empty contents show as an empty value and are not omitted |
| Prompt.RecordEntry | markdai/core.py:30-33 | an extracted record needs no default: its page shows in decimal, its type as the record's own kind without its slash (`Highlight` for `/Highlight`, `Text` for `/Text`), its content stripped |
| Prompt.ExtractedEntries | markdai/core.py:22-33 | for every record the extractor returns: the page in decimal, the type as the record's own kind without its slash, the content stripped |

## Left out

- Opening and parsing the PDF file (`PdfReader`) is left out. So is resolving
  indirect references (`get_object()`, line 25). Pages arrive as lists of
  already-resolved annotation dictionaries, and `None` stands for a page
  without `/Annots`.
- PDF object kinds other than names, text strings, numbers and arrays are not
  modelled. Numbers are kept as their literal text and are never computed
  with.
- PdfObjects.ToStr: `repr()` escaping of quotes and backslashes inside array
  items is not modelled. Neither is the exact formatting of floats, which are
  kept as their literal text.
- The progress message printed for every record (line 39) is left out, as it
  is console output.
- The model call (lines 79-82) is left out, as it is a network service. The
  model ends at the `ModelCall` request, and the chunks that would be
  streamed back are not modelled.
- Prompt.StreamAnnotationsToMarkdown: the three appends per annotation are
  modelled as one append of the three-line block. The resulting list is the
  same.
- The command-line entry point `main` (lines 84-126) is left out, as it is
  argument parsing, environment access, printing and exception reporting.
- scripts/publish.py is left out, as it is a release script with no part in
  the pipeline.
- Prompt.ContentText: present `contents` values that are not strings are
  left out. The builder's input models `contents` as an optional string. In
  the source, `.strip()` on such a value (for example `None`) raises an
  error. Extraction only ever produces strings.
- Prompt.TypeLabel: present `type` values that are not strings are left out.
  The builder's input models `type` as an optional string, so the `str()`
  rendering of other values is not modelled. Extraction only ever produces
  `/Highlight` or `/Text`.
- Prompt.PageText: page values that are not integers are left out. The
  builder's input models `page` as an optional integer. Extraction only ever
  produces positive integers.
