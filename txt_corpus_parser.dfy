/**
 * The tab-separated subtitle corpus parser: the file contents, read in text
 * mode (so every line break is already a '\n'), are cut into lines at '\n', every line is cut into fields at '\t', and a
 * line that yields exactly two fields becomes a sentence pair
 * `{e: first field, j: second field}`; pairs are collected in line order.
 */
module TxtCorpusParser {
  import opened Wrappers

  /** One emitted record: `e` is the English side, `j` the Japanese side. */
  datatype Pair = Pair(e: string, j: string)

  /** Number of occurrences of `c` in `s`. */
  function Occurrences(s: string, c: char): nat
  {
    if s == [] then 0 else (if s[0] == c then 1 else 0) + Occurrences(s[1..], c)
  }

  /** `parts` glued back together with `sep` between neighbours. */
  function Join(parts: seq<string>, sep: char): string
  {
    if |parts| == 0 then ""
    else if |parts| == 1 then parts[0]
    else parts[0] + [sep] + Join(parts[1..], sep)
  }

  /**
   * The universal-newline translation of reading a file in text mode with
   * the default `newline=None`: "\r\n" and a lone '\r' both become '\n'.
   * Afterwards no '\r' is left, a text without '\r' is unchanged, and there
   * are at most as many '\n' as there were line-break characters.
   */
  function TranslateNewlines(contents: string): (text: string)
    ensures '\r' !in text
    ensures '\r' !in contents ==> text == contents
    ensures Occurrences(text, '\n') <= Occurrences(contents, '\n') + Occurrences(contents, '\r')
  {
    if contents == [] then []
    else if contents[0] == '\r' then
      var rest := if |contents| > 1 && contents[1] == '\n' then contents[2..] else contents[1..];
      var tail := TranslateNewlines(rest);
      assert ("\n" + tail)[1..] == tail;
      assert |contents| > 1 && contents[1] == '\n' ==> contents[1..][1..] == rest;
      "\n" + tail
    else
      var tail := TranslateNewlines(contents[1..]);
      assert ([contents[0]] + tail)[1..] == tail;
      [contents[0]] + tail
  }

  /** Text before the first '\r' passes through the translation unchanged. */
  lemma {:induction false} TranslatePrefix(head: string, rest: string)
    requires '\r' !in head
    ensures TranslateNewlines(head + rest) == head + TranslateNewlines(rest)
  {
    if head != [] {
      var s := head + rest;
      assert s[1..] == head[1..] + rest;
      TranslatePrefix(head[1..], rest);
      assert TranslateNewlines(s) == [head[0]] + TranslateNewlines(s[1..]);
      assert [head[0]] + head[1..] == head;
    } else {
      assert head + rest == rest;
    }
  }

  /** A "\r\n", or a '\r' not followed by '\n', is read as a single '\n'. */
  lemma TranslateLineBreak(rest: string)
    ensures TranslateNewlines("\r\n" + rest) == "\n" + TranslateNewlines(rest)
    ensures (rest == [] || rest[0] != '\n') ==> TranslateNewlines("\r" + rest) == "\n" + TranslateNewlines(rest)
  {
    var crlf, cr := "\r\n" + rest, "\r" + rest;
    assert crlf[0] == '\r' && crlf[1] == '\n' && crlf[2..] == rest;
    assert cr[0] == '\r' && cr[1..] == rest;
  }

  /**
   * Python's `s.split(sep)` with an explicit one-character separator: one
   * piece more than there are separators, empty pieces kept, so `""` splits
   * into `[""]`. Join is its inverse.
   */
  function Split(s: string, sep: char): (parts: seq<string>)
    ensures |parts| == Occurrences(s, sep) + 1
    ensures forall k :: 0 <= k < |parts| ==> sep !in parts[k]
    ensures Join(parts, sep) == s
    ensures forall k, c :: 0 <= k < |parts| && c in parts[k] ==> c in s
  {
    if s == [] then [""]
    else
      var rest := Split(s[1..], sep);
      if s[0] == sep then [""] + rest
      else
        assert |rest| > 1 ==> Join(rest, sep) == rest[0] + [sep] + Join(rest[1..], sep);
        assert forall c :: c in [s[0]] + rest[0] ==> c == s[0] || c in rest[0];
        assert forall c :: c in s[1..] ==> c in s;
        [[s[0]] + rest[0]] + rest[1..]
  }

  /** A piece without separators splits into itself. */
  lemma {:induction false} SplitWithoutSeparator(s: string, sep: char)
    requires sep !in s
    ensures Split(s, sep) == [s]
  {
    if s != [] {
      SplitWithoutSeparator(s[1..], sep);
    }
  }

  /** Splitting stops at the first separator: what comes before it is the first piece. */
  lemma {:induction false} SplitAtFirstSeparator(head: string, sep: char, tail: string)
    requires sep !in head
    ensures Split(head + [sep] + tail, sep) == [head] + Split(tail, sep)
  {
    var s := head + [sep] + tail;
    if head != [] {
      assert s[1..] == head[1..] + [sep] + tail;
      SplitAtFirstSeparator(head[1..], sep, tail);
      assert [s[0]] + head[1..] == head;
    } else {
      assert s[1..] == tail;
    }
  }

  /** Split undoes Join when no piece holds the separator. */
  lemma {:induction false} SplitJoin(parts: seq<string>, sep: char)
    requires |parts| > 0
    requires forall k :: 0 <= k < |parts| ==> sep !in parts[k]
    ensures Split(Join(parts, sep), sep) == parts
  {
    if |parts| == 1 {
      SplitWithoutSeparator(parts[0], sep);
    } else {
      SplitJoin(parts[1..], sep);
      SplitAtFirstSeparator(parts[0], sep, Join(parts[1..], sep));
      assert [parts[0]] + parts[1..] == parts;
    }
  }

  /**
   * The body of the loop for one line: a pair when `line.split('\t')` has
   * exactly two fields, nothing otherwise. A line is kept exactly when it
   * holds one tab, and then the pair glues back into the line unchanged.
   */
  function LineToPair(line: string): (r: Option<Pair>)
    ensures r.Some? <==> Occurrences(line, '\t') == 1
    ensures r.Some? ==> r.value.e + "\t" + r.value.j == line
    ensures r.Some? ==> '\t' !in r.value.e && '\t' !in r.value.j
  {
    var fields := Split(line, '\t');
    if |fields| == 2 then
      assert fields[1..] == [fields[1]];
      assert Join(fields, '\t') == fields[0] + "\t" + fields[1];
      Some(Pair(fields[0], fields[1]))
    else None
  }

  /** Any tab-free `e` and `j` are recovered from the line `e + "\t" + j`. */
  lemma PairOfLine(e: string, j: string)
    requires '\t' !in e && '\t' !in j
    ensures LineToPair(e + "\t" + j) == Some(Pair(e, j))
  {
    SplitJoin([e, j], '\t');
  }

  /** The pairs the loop has collected after visiting `lines` in order. */
  function PairsOf(lines: seq<string>): (pairs: seq<Pair>)
    ensures |pairs| <= |lines|
  {
    if |lines| == 0 then []
    else
      var before := PairsOf(lines[..|lines| - 1]);
      match LineToPair(lines[|lines| - 1])
      case Some(p) => before + [p]
      case None => before
  }

  /** The indices of the lines that produced a pair, in increasing order. */
  function KeptLines(lines: seq<string>): seq<nat>
  {
    if |lines| == 0 then []
    else
      KeptLines(lines[..|lines| - 1])
      + (if LineToPair(lines[|lines| - 1]).Some? then [|lines| - 1] else [])
  }

  /**
   * The output is an order-preserving subsequence of the lines: pair k comes
   * from line KeptLines(lines)[k], which is `e + "\t" + j` exactly, those
   * line indices strictly increase, and every line with exactly one tab is
   * among them.
   */
  lemma {:induction false} PairsOfOrigins(lines: seq<string>)
    ensures |KeptLines(lines)| == |PairsOf(lines)|
    ensures forall k :: 0 <= k < |KeptLines(lines)| ==>
      KeptLines(lines)[k] < |lines|
      && LineToPair(lines[KeptLines(lines)[k]]) == Some(PairsOf(lines)[k])
      && lines[KeptLines(lines)[k]] == PairsOf(lines)[k].e + "\t" + PairsOf(lines)[k].j
    ensures forall k, m :: 0 <= k < m < |KeptLines(lines)| ==> KeptLines(lines)[k] < KeptLines(lines)[m]
    ensures forall i :: 0 <= i < |lines| && Occurrences(lines[i], '\t') == 1 ==> i in KeptLines(lines)
  {
    if |lines| > 0 {
      var init := lines[..|lines| - 1];
      PairsOfOrigins(init);
      forall i | 0 <= i < |init| ensures lines[i] == init[i] { }
    }
  }

  /**
   * What the script computes from the contents of the corpus file: at most
   * one pair per '\n'-separated segment of the text as read.
   */
  function Corpus(contents: string): (pairs: seq<Pair>)
    ensures |pairs| <= Occurrences(TranslateNewlines(contents), '\n') + 1
  {
    PairsOf(Split(TranslateNewlines(contents), '\n'))
  }

  /** The script's loop over `f.read().split('\n')`, building `sentence_pairs`. */
  method ParseCorpus(contents: string) returns (sentencePairs: seq<Pair>)
    ensures sentencePairs == Corpus(contents)
  {
    var text := TranslateNewlines(contents);
    var lines := Split(text, '\n');
    sentencePairs := [];
    for i := 0 to |lines|
      invariant sentencePairs == PairsOf(lines[..i])
    {
      var line := lines[i];
      var split := Split(line, '\t');
      if |split| == 2 {
        var pair := Pair(split[0], split[1]);
        sentencePairs := sentencePairs + [pair];
      }
      assert lines[..i + 1][..i] == lines[..i];
    }
    assert lines[..|lines|] == lines;
  }

  /** There are at most as many pairs as line breaks ('\n' or '\r') in the file, plus one. */
  lemma CorpusLength(contents: string)
    ensures |Corpus(contents)| <= Occurrences(contents, '\n') + Occurrences(contents, '\r') + 1
  {
  }

  /** No field of any emitted pair holds a tab, a '\n' or a '\r'. */
  lemma CorpusFieldsClean(contents: string)
    ensures forall p :: p in Corpus(contents) ==>
      '\t' !in p.e && '\t' !in p.j && '\n' !in p.e && '\n' !in p.j && '\r' !in p.e && '\r' !in p.j
  {
    var lines := Split(TranslateNewlines(contents), '\n');
    PairsOfOrigins(lines);
    forall p | p in Corpus(contents)
      ensures '\t' !in p.e && '\t' !in p.j && '\n' !in p.e && '\n' !in p.j && '\r' !in p.e && '\r' !in p.j
    {
      var k :| 0 <= k < |Corpus(contents)| && Corpus(contents)[k] == p;
      var line := lines[KeptLines(lines)[k]];
      assert line == p.e + "\t" + p.j;
      assert '\n' !in line && '\r' !in line;
      assert forall c :: c in p.e ==> c in line;
      assert forall c :: c in p.j ==> c in line;
    }
  }

  /** The pairs of a concatenation of line lists are the concatenated pairs. */
  lemma {:induction false} PairsOfAppend(xs: seq<string>, ys: seq<string>)
    ensures PairsOf(xs + ys) == PairsOf(xs) + PairsOf(ys)
  {
    if |ys| == 0 {
      assert xs + ys == xs;
    } else {
      var init := ys[..|ys| - 1];
      PairsOfAppend(xs, init);
      assert (xs + ys)[..|xs + ys| - 1] == xs + init;
      assert (xs + ys)[|xs + ys| - 1] == ys[|ys| - 1];
    }
  }

  /** A text of one line with one tab and no line break yields exactly its pair. */
  lemma CorpusSingleLine(e: string, j: string)
    requires '\t' !in e && '\n' !in e && '\r' !in e
    requires '\t' !in j && '\n' !in j && '\r' !in j
    ensures Corpus(e + "\t" + j) == [Pair(e, j)]
  {
    var line := e + "\t" + j;
    assert forall c :: c in line ==> c in e || c == '\t' || c in j;
    SplitWithoutSeparator(line, '\n');
    PairOfLine(e, j);
    assert [line][..0] == [];
  }

  /** A text that reads as `line`, a '\n', then what `rest` reads as, splits at that '\n'. */
  lemma CorpusSplitsAtBreak(contents: string, line: string, rest: string)
    requires '\n' !in line && '\r' !in line
    requires TranslateNewlines(contents) == line + "\n" + TranslateNewlines(rest)
    ensures Corpus(contents) == Corpus(line) + Corpus(rest)
  {
    var tail := TranslateNewlines(rest);
    SplitWithoutSeparator(line, '\n');
    SplitAtFirstSeparator(line, '\n', tail);
    PairsOfAppend([line], Split(tail, '\n'));
  }

  /** A line followed by '\n' contributes its own pairs, and the rest of the file the rest. */
  lemma CorpusAfterNewline(line: string, rest: string)
    requires '\n' !in line && '\r' !in line
    ensures Corpus(line + "\n" + rest) == Corpus(line) + Corpus(rest)
  {
    TranslatePrefix(line + "\n", rest);
    CorpusSplitsAtBreak(line + "\n" + rest, line, rest);
  }

  /** The same holds for a Windows line ending "\r\n". */
  lemma CorpusAfterCrLf(line: string, rest: string)
    requires '\n' !in line && '\r' !in line
    ensures Corpus(line + "\r\n" + rest) == Corpus(line) + Corpus(rest)
  {
    var crlf := "\r\n" + rest;
    TranslatePrefix(line, crlf);
    TranslateLineBreak(rest);
    assert line + "\r\n" + rest == line + crlf;
    CorpusSplitsAtBreak(line + crlf, line, rest);
  }

  /** The same holds for a lone '\r', one not followed by '\n'. */
  lemma CorpusAfterLoneCr(line: string, rest: string)
    requires '\n' !in line && '\r' !in line
    requires rest == [] || rest[0] != '\n'
    ensures Corpus(line + "\r" + rest) == Corpus(line) + Corpus(rest)
  {
    var cr := "\r" + rest;
    TranslatePrefix(line, cr);
    TranslateLineBreak(rest);
    assert line + "\r" + rest == line + cr;
    CorpusSplitsAtBreak(line + cr, line, rest);
  }

  /** The single-line example: `"Hello there\tこんにちは"`. */
  lemma ExampleHello()
    ensures Corpus("Hello there\tこんにちは") == [Pair("Hello there", "こんにちは")]
  {
    assert "Hello there" + "\t" + "こんにちは" == "Hello there\tこんにちは";
    CorpusSingleLine("Hello there", "こんにちは");
  }

  /**
   * A Windows line ending is read as '\n': the '\r' does not reach `j`, and
   * the empty segment after the final line break yields nothing.
   */
  lemma ExampleWindowsLineEnding()
    ensures Corpus("a\tb\r\n") == [Pair("a", "b")]
  {
    assert "a" + "\t" + "b" + "\r\n" + "" == "a\tb\r\n";
    CorpusAfterCrLf("a" + "\t" + "b", "");
    CorpusSingleLine("a", "b");
    assert LineToPair("") == None;
  }

  /** A lone '\r' also ends a line: two pairs, not one rejected three-field line. */
  lemma ExampleLoneCarriageReturn()
    ensures Corpus("a\tb\rc\td") == [Pair("a", "b"), Pair("c", "d")]
  {
    var first, second := "a" + "\t" + "b", "c" + "\t" + "d";
    CorpusSingleLine("a", "b");
    CorpusSingleLine("c", "d");
    assert second[0] != '\n';
    CorpusAfterLoneCr(first, second);
    assert Corpus(first + "\r" + second) == [Pair("a", "b"), Pair("c", "d")];
    assert first + "\r" + second == "a\tb\rc\td";
  }

  /** A line that is just a tab gives a pair of empty fields. */
  lemma ExampleEmptyFields()
    ensures Corpus("\t") == [Pair("", "")]
  {
    assert "" + "\t" + "" == "\t";
    assert TranslateNewlines("\t") == "\t";
    SplitWithoutSeparator("\t", '\n');
    PairOfLine("", "");
    assert ["\t"][..0] == [];
  }

  /** The empty text is one empty segment, which yields nothing. */
  lemma ExampleEmptyText()
    ensures Corpus("") == []
  {
    assert LineToPair("") == None;
  }

  /** A line with no tab yields nothing. */
  lemma ExampleNoTab()
    ensures Corpus("no tab") == []
  {
    assert '\r' !in "no tab";
    assert TranslateNewlines("no tab") == "no tab";
    SplitWithoutSeparator("no tab", '\n');
    SplitWithoutSeparator("no tab", '\t');
    assert ["no tab"][..0] == [];
  }

  /** A line with two tabs yields nothing. */
  lemma ExampleTwoTabs()
    ensures Corpus("a\tb\tc") == []
  {
    var line := "a" + "\t" + ("b" + "\t" + "c");
    assert line == "a\tb\tc";
    assert '\r' !in line;
    assert TranslateNewlines(line) == line;
    SplitWithoutSeparator(line, '\n');
    SplitAtFirstSeparator("a", '\t', "b" + "\t" + "c");
    SplitAtFirstSeparator("b", '\t', "c");
    SplitWithoutSeparator("c", '\t');
    assert [line][..0] == [];
  }
}
