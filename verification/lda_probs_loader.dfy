/**
 LDAProbsLoader: reads the estimator's four outputs into a ProbIndex.
 Each file arrives as the sequence of its lines (what successive `readLine`
 calls return). The two matrix files arrive with every line already split and
 every token already read as a real, one inner sequence per line.
 */
module LDAProbsLoader {
  import opened Wrappers
  import opened JavaLang
  import opened LDAProbsImpl

  // ---------------------------------------------------------------------------
  // wordmap.txt: a count line, then lines `word index`
  // ---------------------------------------------------------------------------

  /** One data line of the vocabulary file. */
  datatype WordEntry = WordEntry(word: string, index: int)

  /** `vals = line.split(" ")`, then `vals[0]` and `Integer.parseInt(vals[1])`.
      A line with fewer than two fields raises on `vals[1]`. */
  function ParseWordLine(line: string): (r: Result<WordEntry, Exception>)
    ensures ' ' !in line ==> r == Failure(IndexOutOfBounds(1, 1))
    ensures r.Success? ==> ' ' !in r.value.word && IsInt32(r.value.index)
    ensures r.Success? ==> 2 <= |Split(line)| && r.value.word == Split(line)[0]
    ensures r.Success? <==> 2 <= |Split(line)| && ParseInt(Split(line)[1]).Some?
    ensures r.Success? ==> ParseInt(Split(line)[1]) == Some(r.value.index)
    ensures |Split(line)| < 2 ==> r == Failure(IndexOutOfBounds(1, |Split(line)|))
    ensures 2 <= |Split(line)| && ParseInt(Split(line)[1]).None? ==> r == Failure(NumberFormat(Str(Split(line)[1])))
  {
    var vals := Split(line);
    if |vals| < 2 then Failure(IndexOutOfBounds(1, |vals|))
    else
      match ParseInt(vals[1])
      case None => Failure(NumberFormat(Str(vals[1])))
      case Some(index) => Success(WordEntry(vals[0], index))
  }

  /** The line the estimator writes for `word` at `index`. */
  function FormatWordLine(word: string, index: int): string
  {
    word + " " + IntToDecimal(index)
  }

  /** A data line reads back as the word and index it was written from. */
  lemma WordLineRoundTrip(word: string, index: int)
    requires ' ' !in word
    requires IsInt32(index)
    ensures ParseWordLine(FormatWordLine(word, index)) == Success(WordEntry(word, index))
  {
    var d := IntToDecimal(index);
    assert JoinWithSpaces([word, d]) == FormatWordLine(word, index);
    SplitOfJoinWithSpaces([word, d]);
    ParseIntOfIntToDecimal(index);
  }

  /** What one data line asks for: a word and a slot, or the exception its
      parse raised. */
  type Entry = Result<WordEntry, Exception>

  /** The data lines of a vocabulary file (all lines after the count line),
      each parsed. Parsing is pure, so parsing them all up front and placing
      them in order raises the same first exception as the interleaved loop. */
  function WordEntries(lines: seq<string>): (es: seq<Entry>)
    ensures |lines| == 0 ==> es == []
    ensures 0 < |lines| ==> |es| == |lines| - 1
    ensures forall k :: 0 <= k < |es| ==> es[k] == ParseWordLine(lines[k + 1])
  {
    if |lines| == 0 then []
    else seq(|lines| - 1, k requires 0 <= k < |lines| - 1 => ParseWordLine(lines[k + 1]))
  }

  /** The slot an entry writes, or -1 (no slot) for a malformed line. */
  function Target(e: Entry): int
  {
    match e
    case Success(entry) => entry.index
    case Failure(_) => -1
  }

  /** The word an entry writes ("" for a malformed line). */
  function WordOf(e: Entry): string
  {
    match e
    case Success(entry) => entry.word
    case Failure(_) => ""
  }

  /** The line is well formed and its index lies inside an array of `size` slots. */
  predicate Places(e: Entry, size: int)
  {
    0 <= Target(e) < size
  }

  /** The exception a line that does not place raises: its own parse error,
      or out-of-bounds at its index. */
  function PlaceError(e: Entry, size: int): Exception
  {
    match e
    case Success(entry) => IndexOutOfBounds(entry.index, size)
    case Failure(error) => error
  }

  /** Line `k` is the first that does not place in an array of `size` slots. */
  predicate FirstMisplaced(es: seq<Entry>, size: int, k: int)
  {
    && 0 <= k < |es|
    && !Places(es[k], size)
    && forall m :: 0 <= m < k ==> Places(es[m], size)
  }

  /** No entry from position `from` on writes slot `i`. */
  predicate Untargeted(es: seq<Entry>, from: nat, i: int)
  {
    forall k :: from <= k < |es| ==> Target(es[k]) != i
  }

  /** One turn of getWordList's loop: `words[index] = vals[0]`, raising when
      the line was malformed or the index falls outside the array. */
  function PlaceWord(words: seq<JString>, e: Entry): (r: Result<seq<JString>, Exception>)
    ensures r.Success? <==> Places(e, |words|)
    ensures r.Failure? ==> r.error == PlaceError(e, |words|)
    ensures r.Success? ==> |r.value| == |words| && r.value[Target(e)] == Str(WordOf(e))
    ensures r.Success? ==> forall i :: 0 <= i < |words| && i != Target(e) ==> r.value[i] == words[i]
  {
    var entry :- e;
    if 0 <= entry.index < |words| then Success(words[entry.index := Str(entry.word)])
    else Failure(IndexOutOfBounds(entry.index, |words|))
  }

  /** getWordList's loop over the data lines, in file order: it succeeds
      exactly when every line is well formed with an index inside the array,
      and otherwise raises the exception of the first line that is not. */
  function PlaceWords(words: seq<JString>, es: seq<Entry>): (r: Result<seq<JString>, Exception>)
    ensures r.Success? <==> forall k :: 0 <= k < |es| ==> Places(es[k], |words|)
    ensures r.Failure? ==> exists k :: FirstMisplaced(es, |words|, k) && r.error == PlaceError(es[k], |words|)
    ensures r.Success? ==> |r.value| == |words|
    decreases |es|
  {
    if |es| == 0 then Success(words)
    else
      var last := |es| - 1;
      assert forall k :: 0 <= k < last ==> es[..last][k] == es[k];
      var prefix :- PlaceWords(words, es[..last]);
      PlaceWord(prefix, es[last])
  }

  /** After the loop, slots no line names keep their old content. */
  lemma {:induction false} PlaceWordsUntouched(words: seq<JString>, es: seq<Entry>, i: int)
    requires PlaceWords(words, es).Success?
    requires 0 <= i < |words| && Untargeted(es, 0, i)
    ensures PlaceWords(words, es).value[i] == words[i]
    decreases |es|
  {
    if |es| > 0 {
      var last := |es| - 1;
      var init := es[..last];
      assert Untargeted(init, 0, i) by {
        forall k | 0 <= k < |init| ensures Target(init[k]) != i {
          assert init[k] == es[k];
        }
      }
      PlaceWordsUntouched(words, init, i);
    }
  }

  /** After the loop, the last line naming a slot decides its word. */
  lemma {:induction false} PlaceWordsLastWriter(words: seq<JString>, es: seq<Entry>, k: nat)
    requires PlaceWords(words, es).Success?
    requires k < |es| && Untargeted(es, k + 1, Target(es[k]))
    ensures PlaceWords(words, es).value[Target(es[k])] == Str(WordOf(es[k]))
    decreases |es|
  {
    var last := |es| - 1;
    if k < last {
      var init := es[..last];
      assert init[k] == es[k];
      assert Untargeted(init, k + 1, Target(init[k])) by {
        forall m | k + 1 <= m < |init| ensures Target(init[m]) != Target(es[k]) {
          assert init[m] == es[m];
        }
      }
      PlaceWordsLastWriter(words, init, k);
    }
  }

  /** getWordList: the first line declares the array size N (parseInt, and
      `new String[N]`), then each data line places a word. */
  function GetWordList(lines: seq<string>): (r: Result<seq<JString>, Exception>)
    ensures |lines| == 0 ==> r == Failure(NumberFormat(Null))
    ensures 0 < |lines| && ParseInt(lines[0]).None? ==> r == Failure(NumberFormat(Str(lines[0])))
    ensures 0 < |lines| && ParseInt(lines[0]).Some? && ParseInt(lines[0]).value < 0 ==>
      r == Failure(NegativeArraySize(ParseInt(lines[0]).value))
    ensures r.Success? <==>
      && 0 < |lines| && ParseInt(lines[0]).Some? && 0 <= ParseInt(lines[0]).value
      && forall k :: 0 <= k < |WordEntries(lines)| ==> Places(WordEntries(lines)[k], ParseInt(lines[0]).value)
    ensures r.Success? ==> |r.value| == ParseInt(lines[0]).value
    ensures 0 < |lines| && ParseInt(lines[0]).Some? && 0 <= ParseInt(lines[0]).value && r.Failure? ==>
      var n := ParseInt(lines[0]).value;
      exists k :: FirstMisplaced(WordEntries(lines), n, k) && r.error == PlaceError(WordEntries(lines)[k], n)
  {
    if |lines| == 0 then Failure(NumberFormat(Null))
    else
      match ParseInt(lines[0])
      case None => Failure(NumberFormat(Str(lines[0])))
      case Some(n) =>
        if n < 0 then Failure(NegativeArraySize(n))
        else PlaceWords(seq(n, _ => Null), WordEntries(lines))
  }

  /** The vocabulary array read from a well-formed file: the last data line
      naming a slot decides its word, and slots no line names stay null. */
  lemma GetWordListSlots(lines: seq<string>)
    requires GetWordList(lines).Success?
    ensures forall i :: 0 <= i < |GetWordList(lines).value| && Untargeted(WordEntries(lines), 0, i) ==>
      GetWordList(lines).value[i] == Null
    ensures forall k :: 0 <= k < |WordEntries(lines)| && Untargeted(WordEntries(lines), k + 1, Target(WordEntries(lines)[k])) ==>
      GetWordList(lines).value[Target(WordEntries(lines)[k])] == Str(WordOf(WordEntries(lines)[k]))
  {
    var es := WordEntries(lines);
    var empty: seq<JString> := seq(ParseInt(lines[0]).value, _ => Null);
    assert GetWordList(lines) == PlaceWords(empty, es);
    forall i | 0 <= i < |empty| && Untargeted(es, 0, i)
      ensures PlaceWords(empty, es).value[i] == Null
    {
      PlaceWordsUntouched(empty, es, i);
    }
    forall k | 0 <= k < |es| && Untargeted(es, k + 1, Target(es[k]))
      ensures PlaceWords(empty, es).value[Target(es[k])] == Str(WordOf(es[k]))
    {
      PlaceWordsLastWriter(empty, es, k);
    }
  }

  /** The vocabulary file the estimator writes for `words`. */
  function WordmapLines(words: seq<string>): seq<string>
  {
    [IntToDecimal(|words|)] + seq(|words|, k requires 0 <= k < |words| => FormatWordLine(words[k], k))
  }

  /** The count line of the estimator's vocabulary file reads back as the vocabulary size. */
  lemma WordmapCount(words: seq<string>)
    requires |words| <= MaxInt
    ensures 0 < |WordmapLines(words)| && ParseInt(WordmapLines(words)[0]) == Some(|words|)
  {
    ParseIntOfIntToDecimal(|words|);
  }

  /** Every data line of the estimator's vocabulary file parses to the word
      and index it was written from. */
  lemma WordmapEntries(words: seq<string>)
    requires |words| <= MaxInt
    requires forall k :: 0 <= k < |words| ==> ' ' !in words[k]
    ensures |WordEntries(WordmapLines(words))| == |words|
    ensures forall k :: 0 <= k < |words| ==> WordEntries(WordmapLines(words))[k] == Success(WordEntry(words[k], k))
  {
    var lines := WordmapLines(words);
    forall k | 0 <= k < |words|
      ensures WordEntries(lines)[k] == Success(WordEntry(words[k], k))
    {
      assert lines[k + 1] == FormatWordLine(words[k], k);
      WordLineRoundTrip(words[k], k);
    }
  }

  /** Reading the estimator's vocabulary file gives back its vocabulary. */
  lemma WordmapRoundTrip(words: seq<string>)
    requires |words| <= MaxInt
    requires forall k :: 0 <= k < |words| ==> ' ' !in words[k]
    ensures GetWordList(WordmapLines(words)).Success?
    ensures |GetWordList(WordmapLines(words)).value| == |words|
    ensures forall i :: 0 <= i < |words| ==> GetWordList(WordmapLines(words)).value[i] == Str(words[i])
  {
    var lines := WordmapLines(words);
    var es := WordEntries(lines);
    assert GetWordList(lines).Success? by {
      WordmapCount(words);
      WordmapEntries(words);
      assert forall k :: 0 <= k < |es| ==> Places(es[k], |words|);
    }
    WordmapCount(words);
    WordmapEntries(words);
    GetWordListSlots(lines);
    forall i | 0 <= i < |words|
      ensures GetWordList(lines).value[i] == Str(words[i])
    {
      assert Target(es[i]) == i;
      assert Untargeted(es, i + 1, i);
    }
  }

  // ---------------------------------------------------------------------------
  // docmap.txt: a count line, then one document id per line, in index order
  // ---------------------------------------------------------------------------

  /** getDocList's loop: `docs[index++] = line` for each remaining line; one
      line more than the array holds raises. */
  function FillDocs(docs: seq<JString>, index: nat, rest: seq<string>): (r: Result<seq<JString>, Exception>)
    requires index <= |docs|
    ensures r.Success? <==> index + |rest| <= |docs|
    ensures r.Failure? ==> r.error == IndexOutOfBounds(|docs|, |docs|)
    ensures r.Success? ==> |r.value| == |docs|
    ensures r.Success? ==>
      forall k :: 0 <= k < |docs| ==>
        r.value[k] == if index <= k < index + |rest| then Str(rest[k - index]) else docs[k]
    decreases |rest|
  {
    if |rest| == 0 then Success(docs)
    else if index == |docs| then Failure(IndexOutOfBounds(index, |docs|))
    else FillDocs(docs[index := Str(rest[0])], index + 1, rest[1..])
  }

  /** getDocList: the first line declares the array size N; data line k
      (0-based) becomes slot k; fewer lines leave null slots, more lines raise. */
  function GetDocList(lines: seq<string>): (r: Result<seq<JString>, Exception>)
    ensures |lines| == 0 ==> r == Failure(NumberFormat(Null))
    ensures 0 < |lines| && ParseInt(lines[0]).None? ==> r == Failure(NumberFormat(Str(lines[0])))
    ensures 0 < |lines| && ParseInt(lines[0]).Some? && ParseInt(lines[0]).value < 0 ==>
      r == Failure(NegativeArraySize(ParseInt(lines[0]).value))
    ensures r.Success? <==>
      0 < |lines| && ParseInt(lines[0]).Some? && 0 <= ParseInt(lines[0]).value && |lines| - 1 <= ParseInt(lines[0]).value
    ensures r.Success? ==> |r.value| == ParseInt(lines[0]).value
    ensures r.Success? ==>
      forall k :: 0 <= k < |r.value| ==> r.value[k] == if k < |lines| - 1 then Str(lines[k + 1]) else Null
    ensures 0 < |lines| && ParseInt(lines[0]).Some? && 0 <= ParseInt(lines[0]).value && r.Failure? ==>
      r.error == IndexOutOfBounds(ParseInt(lines[0]).value, ParseInt(lines[0]).value)
  {
    if |lines| == 0 then Failure(NumberFormat(Null))
    else
      match ParseInt(lines[0])
      case None => Failure(NumberFormat(Str(lines[0])))
      case Some(n) =>
        if n < 0 then Failure(NegativeArraySize(n))
        else FillDocs(seq(n, _ => Null), 0, lines[1..])
  }

  /** The document file the estimator writes for `docs`. */
  function DocmapLines(docs: seq<string>): seq<string>
  {
    [IntToDecimal(|docs|)] + docs
  }

  /** Reading the estimator's document file gives back its document ids. */
  lemma DocmapRoundTrip(docs: seq<string>)
    requires |docs| <= MaxInt
    ensures GetDocList(DocmapLines(docs)).Success?
    ensures |GetDocList(DocmapLines(docs)).value| == |docs|
    ensures forall k :: 0 <= k < |docs| ==> GetDocList(DocmapLines(docs)).value[k] == Str(docs[k])
  {
    var lines := DocmapLines(docs);
    ParseIntOfIntToDecimal(|docs|);
    assert lines[0] == IntToDecimal(|docs|);
    assert forall k :: 0 <= k < |docs| ==> lines[k + 1] == docs[k];
  }

  // ---------------------------------------------------------------------------
  // <model>.phi: one line per topic, one column per vocabulary word
  // ---------------------------------------------------------------------------

  /** No two slots convert to the same text (a null slot converts to "null"). */
  predicate DistinctTexts(slots: seq<JString>)
  {
    forall i, j :: 0 <= i < j < |slots| ==> Text(slots[i]) != Text(slots[j])
  }

  /** No line of the word-topic file is wider than the vocabulary array. */
  predicate FitsVocabulary(phi: seq<seq<real>>, vocabularySize: nat)
  {
    forall t :: 0 <= t < |phi| ==> |phi[t]| <= vocabularySize
  }

  lemma FitsVocabularyOfLastRow(phi: seq<seq<real>>, vocabularySize: nat)
    requires 0 < |phi|
    ensures FitsVocabulary(phi, vocabularySize) <==>
      FitsVocabulary(phi[..|phi| - 1], vocabularySize) && |phi[|phi| - 1]| <= vocabularySize
  {
    assert forall t :: 0 <= t < |phi| - 1 ==> phi[..|phi| - 1][t] == phi[t];
  }

  /** The keys one word-topic line of `width` columns writes for `topic`. */
  function WordRowKeys(wordList: seq<JString>, topic: int, width: nat): set<string>
  {
    set j | 0 <= j < width && j < |wordList| :: WordKey(Text(wordList[j]), topic)
  }

  lemma WordRowKeysOfLastColumn(wordList: seq<JString>, topic: int, width: nat)
    requires 0 < width
    ensures width - 1 < |wordList| ==>
      WordRowKeys(wordList, topic, width) == WordRowKeys(wordList, topic, width - 1) + {WordKey(Text(wordList[width - 1]), topic)}
  {
  }

  /** The keys the whole word-topic file writes. */
  function WordTopicKeys(wordList: seq<JString>, phi: seq<seq<real>>): set<string>
  {
    set t, j | 0 <= t < |phi| && 0 <= j < |phi[t]| && j < |wordList| :: WordKey(Text(wordList[j]), t)
  }

  /** The keys of a word-topic file are those of all lines but the last plus
      those of the last line. */
  lemma WordTopicKeysOfLastRow(wordList: seq<JString>, phi: seq<seq<real>>)
    requires 0 < |phi|
    ensures WordTopicKeys(wordList, phi) ==
      WordTopicKeys(wordList, phi[..|phi| - 1]) + WordRowKeys(wordList, |phi| - 1, |phi[|phi| - 1]|)
  {
    var last := |phi| - 1;
    var init := phi[..last];
    var whole, front, back := WordTopicKeys(wordList, phi), WordTopicKeys(wordList, init), WordRowKeys(wordList, last, |phi[last]|);
    forall key | key in whole
      ensures key in front + back
    {
      var t, j :| 0 <= t < |phi| && 0 <= j < |phi[t]| && j < |wordList| && key == WordKey(Text(wordList[j]), t);
      if t < last {
        assert init[t] == phi[t];
        assert key in front;
      } else {
        assert key in back;
      }
    }
    forall key | key in front
      ensures key in whole
    {
      var t, j :| 0 <= t < |init| && 0 <= j < |init[t]| && j < |wordList| && key == WordKey(Text(wordList[j]), t);
      assert init[t] == phi[t];
    }
    forall key | key in back
      ensures key in whole
    {
      var j :| 0 <= j < |phi[last]| && j < |wordList| && key == WordKey(Text(wordList[j]), last);
    }
  }

  /** The inner loop of loadWordTopicProbs: putWordTopic(i, topic, vals[i])
      for i = 0, 1, ...; a line wider than the vocabulary raises at column N. */
  function PutWordTopicRow(p: ProbIndex, topic: int, row: seq<real>): (r: Result<ProbIndex, Exception>)
    ensures r.Success? <==> |row| <= |p.wordList|
    ensures r.Failure? ==> r.error == IndexOutOfBounds(|p.wordList|, |p.wordList|)
    ensures r.Success? ==> r.value == p.(wordTopicProbs := r.value.wordTopicProbs)
    ensures r.Success? ==> r.value.wordTopicProbs.Keys == p.wordTopicProbs.Keys + WordRowKeys(p.wordList, topic, |row|)
    ensures r.Success? ==>
      forall k :: k in p.wordTopicProbs && k !in WordRowKeys(p.wordList, topic, |row|) ==>
        r.value.wordTopicProbs[k] == p.wordTopicProbs[k]
    decreases |row|
  {
    if |row| == 0 then Success(p)
    else
      var last := |row| - 1;
      var q :- PutWordTopicRow(p, topic, row[..last]);
      WordRowKeysOfLastColumn(p.wordList, topic, |row|);
      PutWordTopic(q, last, topic, row[last])
  }

  /** The outer loop of loadWordTopicProbs: line t is topic t. */
  function PutWordTopicRows(p: ProbIndex, phi: seq<seq<real>>): (r: Result<ProbIndex, Exception>)
    ensures r.Success? <==> FitsVocabulary(phi, |p.wordList|)
    ensures r.Failure? ==> r.error == IndexOutOfBounds(|p.wordList|, |p.wordList|)
    ensures r.Success? ==> r.value == p.(wordTopicProbs := r.value.wordTopicProbs)
    ensures r.Success? ==> r.value.wordTopicProbs.Keys == p.wordTopicProbs.Keys + WordTopicKeys(p.wordList, phi)
    ensures r.Success? ==>
      forall k :: k in p.wordTopicProbs && k !in WordTopicKeys(p.wordList, phi) ==>
        r.value.wordTopicProbs[k] == p.wordTopicProbs[k]
    decreases |phi|
  {
    if |phi| == 0 then Success(p)
    else
      var last := |phi| - 1;
      FitsVocabularyOfLastRow(phi, |p.wordList|);
      var q :- PutWordTopicRows(p, phi[..last]);
      WordTopicKeysOfLastRow(p.wordList, phi);
      PutWordTopicRow(q, last, phi[last])
  }

  /** putWordTopic for one word leaves the value stored for another word under
      the same topic where it was. */
  lemma PutWordTopicKeepsOtherWord(q: ProbIndex, word: int, topic: int, prob: real, w: string, v: real)
    requires PutWordTopic(q, word, topic, prob).Success?
    requires WordKey(w, topic) in q.wordTopicProbs && q.wordTopicProbs[WordKey(w, topic)] == v
    requires w != Text(q.wordList[word])
    ensures WordKey(w, topic) in PutWordTopic(q, word, topic, prob).value.wordTopicProbs
    ensures PutWordTopic(q, word, topic, prob).value.wordTopicProbs[WordKey(w, topic)] == v
  {
    GetWordTopicProbAfterPut(q, word, topic, prob, w, topic);
  }

  /** With distinct vocabulary texts, a stored line keeps every one of its
      cells: a later column of the same line never hits an earlier key. */
  lemma {:induction false} PutWordTopicRowCell(p: ProbIndex, topic: int, row: seq<real>, j: nat)
    requires PutWordTopicRow(p, topic, row).Success?
    requires DistinctTexts(p.wordList)
    requires j < |row|
    ensures var key := WordKey(Text(p.wordList[j]), topic);
      && key in PutWordTopicRow(p, topic, row).value.wordTopicProbs
      && PutWordTopicRow(p, topic, row).value.wordTopicProbs[key] == row[j]
    decreases |row|, 1
  {
    if j < |row| - 1 {
      PutWordTopicRowEarlierCell(p, topic, row, j);
    } else {
      PutWordTopicRowLastCell(p, topic, row);
    }
  }

  /** The last column of a stored line is kept: it is the line's final put. */
  lemma PutWordTopicRowLastCell(p: ProbIndex, topic: int, row: seq<real>)
    requires PutWordTopicRow(p, topic, row).Success?
    requires 0 < |row|
    ensures var key := WordKey(Text(p.wordList[|row| - 1]), topic);
      && key in PutWordTopicRow(p, topic, row).value.wordTopicProbs
      && PutWordTopicRow(p, topic, row).value.wordTopicProbs[key] == row[|row| - 1]
  {
    var last := |row| - 1;
    var q := PutWordTopicRow(p, topic, row[..last]).value;
    assert PutWordTopicRow(p, topic, row) == PutWordTopic(q, last, topic, row[last]);
  }

  /** An earlier column of a stored line is kept: the line's final put is for
      another word, since the vocabulary texts are distinct. */
  lemma {:induction false} PutWordTopicRowEarlierCell(p: ProbIndex, topic: int, row: seq<real>, j: nat)
    requires PutWordTopicRow(p, topic, row).Success?
    requires DistinctTexts(p.wordList)
    requires j < |row| - 1
    ensures var key := WordKey(Text(p.wordList[j]), topic);
      && key in PutWordTopicRow(p, topic, row).value.wordTopicProbs
      && PutWordTopicRow(p, topic, row).value.wordTopicProbs[key] == row[j]
    decreases |row|, 0
  {
    var last := |row| - 1;
    var init := row[..last];
    var q := PutWordTopicRow(p, topic, init).value;
    var key := WordKey(Text(p.wordList[j]), topic);
    assert PutWordTopicRow(p, topic, row) == PutWordTopic(q, last, topic, row[last]);
    assert key in q.wordTopicProbs && q.wordTopicProbs[key] == row[j] by {
      PutWordTopicRowCell(p, topic, init, j);
      assert init[j] == row[j];
    }
    assert Text(p.wordList[j]) != Text(q.wordList[last]);
    PutWordTopicKeepsOtherWord(q, last, topic, row[last], Text(p.wordList[j]), row[j]);
  }

  /** With distinct vocabulary texts, the stored word-topic map holds cell
      (t, j) of the file under the key of word j and topic t. */
  lemma {:induction false} PutWordTopicRowsCell(p: ProbIndex, phi: seq<seq<real>>, t: nat, j: nat)
    requires PutWordTopicRows(p, phi).Success?
    requires DistinctTexts(p.wordList)
    requires t < |phi| && j < |phi[t]|
    ensures var key := WordKey(Text(p.wordList[j]), t);
      && key in PutWordTopicRows(p, phi).value.wordTopicProbs
      && PutWordTopicRows(p, phi).value.wordTopicProbs[key] == phi[t][j]
    decreases |phi|
  {
    var last := |phi| - 1;
    var init := phi[..last];
    var q := PutWordTopicRows(p, init).value;
    assert PutWordTopicRows(p, phi) == PutWordTopicRow(q, last, phi[last]);
    if t == last {
      PutWordTopicRowCell(q, last, phi[last], j);
    } else {
      assert init[t] == phi[t];
      PutWordTopicRowsCell(p, init, t, j);
      var key := WordKey(Text(p.wordList[j]), t);
      forall j' | 0 <= j' < |phi[last]| && j' < |p.wordList|
        ensures WordKey(Text(p.wordList[j']), last) != key
      {
        WordKeyInjective(Text(p.wordList[j']), last, Text(p.wordList[j]), t);
      }
      assert key !in WordRowKeys(q.wordList, last, |phi[last]|);
    }
  }

  /** loadWordTopicProbs: all lines stored, then numTopics = the line count. */
  function LoadWordTopicProbs(p: ProbIndex, phi: seq<seq<real>>): (r: Result<ProbIndex, Exception>)
    ensures r.Success? <==> FitsVocabulary(phi, |p.wordList|)
    ensures r.Failure? ==> r.error == IndexOutOfBounds(|p.wordList|, |p.wordList|)
    ensures r.Success? ==> r.value.numTopics == |phi|
    ensures r.Success? ==> r.value == p.(wordTopicProbs := r.value.wordTopicProbs, numTopics := |phi|)
  {
    var q :- PutWordTopicRows(p, phi);
    Success(q.(numTopics := |phi|))
  }

  // ---------------------------------------------------------------------------
  // <model>.theta: one line per document, one column per topic
  // ---------------------------------------------------------------------------

  /** Every non-empty line of the topic-document file has a document slot. */
  predicate FitsDocuments(theta: seq<seq<real>>, documentCount: nat)
  {
    forall d :: 0 <= d < |theta| && |theta[d]| != 0 ==> d < documentCount
  }

  /** Line `d` is the first non-empty line of the topic-document file that
      has no document slot. */
  predicate FirstUnfitDocument(theta: seq<seq<real>>, documentCount: nat, d: int)
  {
    && documentCount <= d < |theta|
    && |theta[d]| != 0
    && forall e :: 0 <= e < d && |theta[e]| != 0 ==> e < documentCount
  }

  lemma FitsDocumentsOfLastRow(theta: seq<seq<real>>, documentCount: nat)
    requires 0 < |theta|
    ensures FitsDocuments(theta, documentCount) <==>
      FitsDocuments(theta[..|theta| - 1], documentCount) && (|theta[|theta| - 1]| != 0 ==> |theta| - 1 < documentCount)
  {
    assert forall d :: 0 <= d < |theta| - 1 ==> theta[..|theta| - 1][d] == theta[d];
  }

  /** The keys one topic-document line of `width` columns writes for `doc`. */
  function TopicDocRowKeys(docList: seq<JString>, doc: int, width: nat): set<string>
  {
    set t | 0 <= t < width && 0 <= doc < |docList| :: TopicDocKey(t, Text(docList[doc]))
  }

  lemma TopicDocRowKeysOfLastColumn(docList: seq<JString>, doc: int, width: nat)
    requires 0 < width
    ensures 0 <= doc < |docList| ==>
      TopicDocRowKeys(docList, doc, width) == TopicDocRowKeys(docList, doc, width - 1) + {TopicDocKey(width - 1, Text(docList[doc]))}
  {
  }

  /** The keys the whole topic-document file writes. */
  function TopicDocKeys(docList: seq<JString>, theta: seq<seq<real>>): set<string>
  {
    set d, t | 0 <= d < |theta| && d < |docList| && 0 <= t < |theta[d]| :: TopicDocKey(t, Text(docList[d]))
  }

  predicate NonNegativeValues(m: map<string, real>)
  {
    forall k :: k in m ==> m[k] >= 0.0
  }

  /** No value of one line is negative. */
  predicate NonNegativeRow(row: seq<real>)
  {
    forall t :: 0 <= t < |row| ==> row[t] >= 0.0
  }

  /** No value of any line is negative. */
  predicate NonNegativeMatrix(rows: seq<seq<real>>)
  {
    forall d :: 0 <= d < |rows| ==> NonNegativeRow(rows[d])
  }

  /** The keys of a topic-document file are those of all lines but the last
      plus those of the last line. */
  lemma TopicDocKeysOfLastRow(docList: seq<JString>, theta: seq<seq<real>>)
    requires 0 < |theta|
    ensures TopicDocKeys(docList, theta) ==
      TopicDocKeys(docList, theta[..|theta| - 1]) + TopicDocRowKeys(docList, |theta| - 1, |theta[|theta| - 1]|)
  {
    var last := |theta| - 1;
    var init := theta[..last];
    var whole, front, back := TopicDocKeys(docList, theta), TopicDocKeys(docList, init), TopicDocRowKeys(docList, last, |theta[last]|);
    forall key | key in whole
      ensures key in front + back
    {
      var d, t :| 0 <= d < |theta| && d < |docList| && 0 <= t < |theta[d]| && key == TopicDocKey(t, Text(docList[d]));
      if d < last {
        assert init[d] == theta[d];
        assert key in front;
      } else {
        assert key in back;
      }
    }
    forall key | key in front
      ensures key in whole
    {
      var d, t :| 0 <= d < |init| && d < |docList| && 0 <= t < |init[d]| && key == TopicDocKey(t, Text(docList[d]));
      assert init[d] == theta[d];
    }
    forall key | key in back
      ensures key in whole
    {
      var t :| 0 <= t < |theta[last]| && last < |docList| && key == TopicDocKey(t, Text(docList[last]));
    }
  }

  /** The inner loop of loadTopicDocProbs: putTopicDoc(i, doc, vals[i]) for
      i = 0, 1, ...; a non-empty line past the document array raises. */
  function PutTopicDocRow(p: ProbIndex, doc: int, row: seq<real>): (r: Result<ProbIndex, Exception>)
    ensures r.Success? <==> |row| == 0 || 0 <= doc < |p.docList|
    ensures r.Failure? ==> r.error == IndexOutOfBounds(doc, |p.docList|)
    ensures r.Success? ==> r.value == p.(topicDocProbs := r.value.topicDocProbs)
    ensures r.Success? ==> r.value.topicDocProbs.Keys == p.topicDocProbs.Keys + TopicDocRowKeys(p.docList, doc, |row|)
    ensures r.Success? ==>
      forall k :: k in p.topicDocProbs && k !in TopicDocRowKeys(p.docList, doc, |row|) ==>
        r.value.topicDocProbs[k] == p.topicDocProbs[k]
    ensures r.Success? && NonNegativeValues(p.topicDocProbs) && NonNegativeRow(row) ==>
      NonNegativeValues(r.value.topicDocProbs)
    decreases |row|
  {
    if |row| == 0 then Success(p)
    else
      var last := |row| - 1;
      assert NonNegativeRow(row) ==> NonNegativeRow(row[..last]) && row[last] >= 0.0;
      var q :- PutTopicDocRow(p, doc, row[..last]);
      TopicDocRowKeysOfLastColumn(p.docList, doc, |row|);
      PutTopicDoc(q, last, doc, row[last])
  }

  /** The outer loop of loadTopicDocProbs: line d is document d; the first
      non-empty line past the document array raises at its line number. */
  function PutTopicDocRows(p: ProbIndex, theta: seq<seq<real>>): (r: Result<ProbIndex, Exception>)
    ensures r.Success? <==> FitsDocuments(theta, |p.docList|)
    ensures r.Failure? ==> exists d :: FirstUnfitDocument(theta, |p.docList|, d) && r.error == IndexOutOfBounds(d, |p.docList|)
    ensures r.Success? ==> r.value == p.(topicDocProbs := r.value.topicDocProbs)
    ensures r.Success? ==> r.value.topicDocProbs.Keys == p.topicDocProbs.Keys + TopicDocKeys(p.docList, theta)
    ensures r.Success? ==>
      forall k :: k in p.topicDocProbs && k !in TopicDocKeys(p.docList, theta) ==>
        r.value.topicDocProbs[k] == p.topicDocProbs[k]
    ensures r.Success? && NonNegativeValues(p.topicDocProbs) && NonNegativeMatrix(theta) ==>
      NonNegativeValues(r.value.topicDocProbs)
    decreases |theta|
  {
    if |theta| == 0 then Success(p)
    else
      var last := |theta| - 1;
      FitsDocumentsOfLastRow(theta, |p.docList|);
      assert NonNegativeMatrix(theta) ==> NonNegativeMatrix(theta[..last]) && NonNegativeRow(theta[last]);
      var q :- PutTopicDocRows(p, theta[..last]);
      TopicDocKeysOfLastRow(p.docList, theta);
      PutTopicDocRow(q, last, theta[last])
  }

  /** A stored topic-document line keeps every one of its cells: the keys of
      one line differ in their topic numeral. */
  lemma {:induction false} PutTopicDocRowCell(p: ProbIndex, doc: int, row: seq<real>, t: nat)
    requires PutTopicDocRow(p, doc, row).Success?
    requires t < |row|
    ensures 0 <= doc < |p.docList|
    ensures var key := TopicDocKey(t, Text(p.docList[doc]));
      && key in PutTopicDocRow(p, doc, row).value.topicDocProbs
      && PutTopicDocRow(p, doc, row).value.topicDocProbs[key] == row[t]
    decreases |row|
  {
    var last := |row| - 1;
    var init := row[..last];
    var q := PutTopicDocRow(p, doc, init).value;
    var stored := PutTopicDoc(q, last, doc, row[last]);
    assert PutTopicDocRow(p, doc, row) == stored;
    var key := TopicDocKey(t, Text(p.docList[doc]));
    if t < last {
      assert key in q.topicDocProbs && q.topicDocProbs[key] == row[t] by {
        PutTopicDocRowCell(p, doc, init, t);
        assert init[t] == row[t];
      }
      assert key != TopicDocKey(last, Text(p.docList[doc])) by {
        TopicDocKeyInjective(t, Text(p.docList[doc]), last, Text(p.docList[doc]));
      }
      assert key in stored.value.topicDocProbs && stored.value.topicDocProbs[key] == row[t];
    } else {
      assert key in stored.value.topicDocProbs && stored.value.topicDocProbs[key] == row[t];
    }
  }

  /** With distinct document texts, no key of document `d` is among the keys
      a line of another document writes. */
  lemma OtherDocumentKeyOutsideRow(docList: seq<JString>, d: nat, t: int, doc: int, width: nat)
    requires DistinctTexts(docList)
    requires d < |docList| && d != doc
    ensures TopicDocKey(t, Text(docList[d])) !in TopicDocRowKeys(docList, doc, width)
  {
    if 0 <= doc < |docList| {
      forall t' | 0 <= t' < width
        ensures TopicDocKey(t', Text(docList[doc])) != TopicDocKey(t, Text(docList[d]))
      {
        TopicDocKeyInjective(t', Text(docList[doc]), t, Text(docList[d]));
      }
    }
  }

  /** With distinct document texts, the stored topic-document map holds cell
      (d, t) of the file under the key of topic t and document d. */
  lemma {:induction false} PutTopicDocRowsCell(p: ProbIndex, theta: seq<seq<real>>, d: nat, t: nat)
    requires PutTopicDocRows(p, theta).Success?
    requires DistinctTexts(p.docList)
    requires d < |theta| && t < |theta[d]| && d < |p.docList|
    ensures var key := TopicDocKey(t, Text(p.docList[d]));
      && key in PutTopicDocRows(p, theta).value.topicDocProbs
      && PutTopicDocRows(p, theta).value.topicDocProbs[key] == theta[d][t]
    decreases |theta|
  {
    var last := |theta| - 1;
    var init := theta[..last];
    FitsDocumentsOfLastRow(theta, |p.docList|);
    var q := PutTopicDocRows(p, init).value;
    assert PutTopicDocRows(p, theta) == PutTopicDocRow(q, last, theta[last]);
    var r := PutTopicDocRow(q, last, theta[last]).value;
    if d == last {
      PutTopicDocRowCell(q, last, theta[last], t);
    } else {
      assert init[d] == theta[d];
      var key := TopicDocKey(t, Text(p.docList[d]));
      assert key in q.topicDocProbs && q.topicDocProbs[key] == theta[d][t] by {
        PutTopicDocRowsCell(p, init, d, t);
      }
      assert key !in TopicDocRowKeys(q.docList, last, |theta[last]|) by {
        OtherDocumentKeyOutsideRow(p.docList, d, t, last, |theta[last]|);
      }
    }
  }

  /** loadTopicDocProbs. */
  function LoadTopicDocProbs(p: ProbIndex, theta: seq<seq<real>>): (r: Result<ProbIndex, Exception>)
    ensures r.Success? <==> FitsDocuments(theta, |p.docList|)
    ensures r.Failure? ==> exists d :: FirstUnfitDocument(theta, |p.docList|, d) && r.error == IndexOutOfBounds(d, |p.docList|)
    ensures r.Success? ==> r.value == p.(topicDocProbs := r.value.topicDocProbs)
  {
    PutTopicDocRows(p, theta)
  }

  // ---------------------------------------------------------------------------
  // loadLDAProbs
  // ---------------------------------------------------------------------------

  /** loadLDAProbs once the four files are read: vocabulary, then documents,
      then the word-topic matrix, then the topic-document matrix; the first
      exception aborts the whole load. */
  function LoadLDAProbs(wordmap: seq<string>, docmap: seq<string>, phi: seq<seq<real>>, theta: seq<seq<real>>): (r: Result<ProbIndex, Exception>)
    ensures r.Success? <==>
      && GetWordList(wordmap).Success?
      && GetDocList(docmap).Success?
      && FitsVocabulary(phi, |GetWordList(wordmap).value|)
      && FitsDocuments(theta, |GetDocList(docmap).value|)
    ensures r.Success? ==>
      && r.value.wordList == GetWordList(wordmap).value
      && r.value.docList == GetDocList(docmap).value
      && r.value.numTopics == |phi|
    ensures r.Success? ==>
      && r.value.wordTopicProbs.Keys == WordTopicKeys(r.value.wordList, phi)
      && r.value.topicDocProbs.Keys == TopicDocKeys(r.value.docList, theta)
    ensures GetWordList(wordmap).Failure? ==> r == Failure(GetWordList(wordmap).error)
    ensures GetWordList(wordmap).Success? && GetDocList(docmap).Failure? ==> r == Failure(GetDocList(docmap).error)
    ensures GetWordList(wordmap).Success? && GetDocList(docmap).Success? && !FitsVocabulary(phi, |GetWordList(wordmap).value|) ==>
      var n := |GetWordList(wordmap).value|;
      r == Failure(IndexOutOfBounds(n, n))
    ensures GetWordList(wordmap).Success? && GetDocList(docmap).Success? && FitsVocabulary(phi, |GetWordList(wordmap).value|) && r.Failure? ==>
      var m := |GetDocList(docmap).value|;
      exists d :: FirstUnfitDocument(theta, m, d) && r.error == IndexOutOfBounds(d, m)
  {
    var words :- GetWordList(wordmap);
    var docs :- GetDocList(docmap);
    var withWords :- LoadWordTopicProbs(NewIndex(words, docs), phi);
    assert withWords.docList == docs;
    LoadTopicDocProbs(withWords, theta)
  }
}
