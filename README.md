# Japanese–English corpus extraction, modelled in Dafny

This project models the two extraction routines of a small Japanese–English
sentence-pair corpus builder.

- **Subtitle corpus parser** (`txt_corpus_parser.dfy`, module `TxtCorpusParser`).
  The file is read in text mode, which turns `"\r\n"` and a lone `'\r'`
  into `'\n'`; that translation is the function `TranslateNewlines`. The text
  is then split into lines at `'\n'`. Each line is
  split into fields at `'\t'`. A line that yields exactly two fields becomes a
  `Pair(e, j)`: the first field is the English side, the second the Japanese
  side. Pairs are collected in line order. Python's `str.split` with an
  explicit separator is modelled by `Split`, proved inverse to `Join`. The loop
  is the method `ParseCorpus`, proved equal to the function `Corpus`. The
  lemmas then prove the acceptance rule, the exact round trip, the
  order-preserving subsequence, the absence of separators in the fields, and
  that a `"\n"`, `"\r\n"` or lone `'\r'` line break splits the file's pairs
  the same way.
- **Title translation selector** (`xml_parser.dfy`, module `XmlParser`).
  An ElementTree element is a datatype of tag, attribute map, optional text
  and children. The method `ExtractTitle` finds the first `tit` child of the
  root and walks the title's children. A `j` child writes key `"j"`. An `e`
  child writes key `"e"` only when its attributes give `type == "trans"` and
  `ver == "2"`. A later write overwrites an earlier one. The method is proved
  equal to `TitleProps`, a left fold of the loop body `Step`. The lemmas prove
  that each key holds the text of the last child that selects it, and that
  non-selecting children have no effect.
- `wrappers.dfy` holds the `Option` datatype. It stands for Python's `None`,
  both for ElementTree's `.text` and for `attrib.get`.

## Model

| member | source | states |
|---|---|---|
| TxtCorpusParser.TranslateNewlines | data_parsing/txt_corpus_parser.py:7-8 | Reading in text mode leaves no `'\r'`: `"\r\n"` and a lone `'\r'` become `'\n'`. A text without `'\r'` is read unchanged. There are at most as many `'\n'` as there were line-break characters. |
| TxtCorpusParser.TranslatePrefix | data_parsing/txt_corpus_parser.py:7-8 | Text before the first `'\r'` passes through the translation unchanged. |
| TxtCorpusParser.TranslateLineBreak | data_parsing/txt_corpus_parser.py:7-8 | A `"\r\n"`, or a `'\r'` not followed by `'\n'`, is read as a single `'\n'`. |
| TxtCorpusParser.Split | data_parsing/txt_corpus_parser.py:8 | `str.split(sep)` gives one piece more than there are separators. No piece holds the separator, and every character of a piece comes from the input. Joining the pieces with the separator gives back the input. |
| TxtCorpusParser.SplitWithoutSeparator | data_parsing/txt_corpus_parser.py:11-12 | A string without the separator splits into exactly itself, so a tab-free line gives one field and is dropped. |
| TxtCorpusParser.SplitAtFirstSeparator | data_parsing/txt_corpus_parser.py:8 | Splitting stops at the first separator: the text before it is the first piece, and the rest splits on its own. |
| TxtCorpusParser.SplitJoin | data_parsing/txt_corpus_parser.py:11 | Split undoes Join when no piece holds the separator (the other half of the round trip). |
| TxtCorpusParser.LineToPair | data_parsing/txt_corpus_parser.py:11-15 | A line yields a pair iff it holds exactly one tab. The pair's `e + "\t" + j` equals the line exactly, nothing trimmed. Neither field holds a tab. |
| TxtCorpusParser.PairOfLine | data_parsing/txt_corpus_parser.py:12-15 | For any tab-free `e` and `j`, including empty ones, the line `e + "\t" + j` yields exactly `Pair(e, j)`. |
| TxtCorpusParser.PairsOf | data_parsing/txt_corpus_parser.py:9-16 | The collected list is never longer than the list of lines. |
| TxtCorpusParser.PairsOfAppend | data_parsing/txt_corpus_parser.py:9-16 | The loop over two consecutive runs of lines collects the pairs of the first run followed by those of the second. |
| TxtCorpusParser.PairsOfOrigins | data_parsing/txt_corpus_parser.py:9-16 | Pair k comes from a line that is exactly `e + "\t" + j`. The source line indices strictly increase, so order is preserved. Every line with exactly one tab contributes. |
| TxtCorpusParser.Corpus | data_parsing/txt_corpus_parser.py:8-16 | The script's result has at most one pair per `'\n'`-separated segment of the text as read. |
| TxtCorpusParser.ParseCorpus | data_parsing/txt_corpus_parser.py:7-16 | The loop over `f.read().split('\n')` builds exactly `Corpus(contents)`, the pairs of the kept lines in line order. |
| TxtCorpusParser.CorpusLength | data_parsing/txt_corpus_parser.py:7-16 | There are at most as many pairs as line-break characters (`'\n'` or `'\r'`) in the file, plus one. |
| TxtCorpusParser.CorpusFieldsClean | data_parsing/txt_corpus_parser.py:7-15 | No field of any emitted pair holds `'\t'`, `'\n'` or `'\r'`. |
| TxtCorpusParser.CorpusSingleLine | data_parsing/txt_corpus_parser.py:8-16 | A file that is one line `e + "\t" + j`, with no tab or line break in `e` or `j`, yields exactly `[Pair(e, j)]`. |
| TxtCorpusParser.CorpusSplitsAtBreak | data_parsing/txt_corpus_parser.py:8-16 | A file that reads as a line, a `'\n'`, then the rest, yields the line's pairs followed by the rest's. |
| TxtCorpusParser.CorpusAfterNewline | data_parsing/txt_corpus_parser.py:7-16 | A line and a `"\n"` before the rest of the file: the line's pairs, then the rest's. |
| TxtCorpusParser.CorpusAfterCrLf | data_parsing/txt_corpus_parser.py:7-16 | The same for a Windows line ending `"\r\n"`. |
| TxtCorpusParser.CorpusAfterLoneCr | data_parsing/txt_corpus_parser.py:7-16 | The same for a lone `'\r'` (one not followed by `'\n'`). |
| TxtCorpusParser.ExampleHello | data_parsing/txt_corpus_parser.py:11-16 | `"Hello there\tこんにちは"` yields `{e: "Hello there", j: "こんにちは"}`. |
| TxtCorpusParser.ExampleWindowsLineEnding | data_parsing/txt_corpus_parser.py:7-16 | `"a\tb\r\n"` yields `{e: "a", j: "b"}`: the `'\r'` does not reach `j`, and the empty segment after the final line break yields nothing. |
| TxtCorpusParser.ExampleLoneCarriageReturn | data_parsing/txt_corpus_parser.py:7-16 | `"a\tb\rc\td"` yields two pairs, because a lone `'\r'` ends a line. |
| TxtCorpusParser.ExampleEmptyFields | data_parsing/txt_corpus_parser.py:12-15 | The line `"\t"` yields a pair of two empty fields. |
| TxtCorpusParser.ExampleEmptyText | data_parsing/txt_corpus_parser.py:8-12 | The empty input yields no pair. |
| TxtCorpusParser.ExampleNoTab | data_parsing/txt_corpus_parser.py:11-12 | A line with no tab yields no pair. |
| TxtCorpusParser.ExampleTwoTabs | data_parsing/txt_corpus_parser.py:11-12 | A line with two tabs yields no pair. |
| XmlParser.QualifyingEnglish | data_parsing/xml_parser.py:15-17 | The script's test on an `e` child, comparing the `.get` results for `type` and `ver` with `"trans"` and `"2"`, holds exactly when both attributes are present with those values. That is the selection rule for key `"e"`. |
| XmlParser.Step | data_parsing/xml_parser.py:13-18 | One loop iteration writes exactly the keys the child selects, with the child's text. A `j` child never touches `"e"`, an `e` child never touches `"j"`, and every other entry is kept. |
| XmlParser.TitleProps | data_parsing/xml_parser.py:11-18 | The keys of `title_props` are always a subset of `{"j", "e"}`. |
| XmlParser.TitlePropsLastMatch | data_parsing/xml_parser.py:12-18 | A key is present iff some child selects it (tag `j`; or tag `e` with `type == "trans"` and `ver == "2"`). Its value is the text of the last child that selects it. |
| XmlParser.IgnoredChild | data_parsing/xml_parser.py:13-17 | A child that selects neither key leaves the result unchanged, wherever it stands. This covers other tags and `e` children whose `type` or `ver` is missing or different. |
| XmlParser.WrongVersionIgnored | data_parsing/xml_parser.py:15-17 | An `e` child whose `ver` is missing or not `"2"` (e.g. `"1"`) never affects the result. |
| XmlParser.FirstWithTag | data_parsing/xml_parser.py:10 | `find('tit')` returns the first direct child tagged `tit`, or None exactly when there is none. |
| XmlParser.ExtractTitle | data_parsing/xml_parser.py:10-18 | Given a root with a `tit` child, the loop builds exactly `TitleProps` of that title's children. |
| XmlParser.ExampleBothSides | data_parsing/xml_parser.py:12-18 | A `j` child and an `e` child with `type="trans"`, `ver="2"` fill both keys. |
| XmlParser.ExampleVersionOne | data_parsing/xml_parser.py:15-18 | An `e` child with `ver="1"` is ignored, so only `"j"` is present. |

## Left out

- Opening the corpus file and UTF-8 decoding (data_parsing/txt_corpus_parser.py:3-8). The model starts from the decoded contents as a `string`. The line-ending translation that text-mode reading applies next is modelled, by `TranslateNewlines`.
- Writing `subtitle_corpus.json` with `json.dump` (data_parsing/txt_corpus_parser.py:18-19). This is serialisation by a library.
- Path construction with `os.path` in both scripts. This is I/O set-up only.
- XML parsing with `ET.parse` and `getroot` (data_parsing/xml_parser.py:4-7). The model starts from the parsed root element.
- `print(title_props)` (data_parsing/xml_parser.py:20). This is console output. The insertion order of the dictionary's keys only shows in that output, so it is not modelled.
- XmlParser.ExtractTitle: a root without a `tit` child is excluded by a precondition. The script then fails with a `TypeError` when it iterates `None`, and has no error path of its own.
- All of `benchmark/benchmark.py`. Its point is a call to an external translation service over the network. Its sampling uses Python's seeded random generator, whose algorithm is not part of this model.
- Paragraph, section and sentence traversal of the XML documents. No code for it exists in the modelled files.
