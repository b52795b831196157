/**
 What a successful loadLDAProbs promises about the index it builds: which keys
 are stored, which cell of which file each lookup returns, and what
 getMostLikelyTopic answers for a loaded document.
 */
module LDAProbsProperties {
  import opened Wrappers
  import opened JavaLang
  import opened LDAProbsImpl
  import opened LDAProbsLoader

  /** The index right after the word-topic pass of a load (theta not yet read). */
  function AfterWordTopics(wordmap: seq<string>, docmap: seq<string>, phi: seq<seq<real>>, theta: seq<seq<real>>): (q: ProbIndex)
    requires LoadLDAProbs(wordmap, docmap, phi, theta).Success?
    ensures var r := LoadLDAProbs(wordmap, docmap, phi, theta).value;
      && q.wordList == r.wordList && q.docList == r.docList && q.topicDocProbs == map[]
      && PutTopicDocRows(q, theta).Success?
      && r.wordTopicProbs == q.wordTopicProbs
      && r.topicDocProbs == PutTopicDocRows(q, theta).value.topicDocProbs
      && PutWordTopicRows(NewIndex(r.wordList, r.docList), phi).Success?
      && q.wordTopicProbs == PutWordTopicRows(NewIndex(r.wordList, r.docList), phi).value.wordTopicProbs
  {
    var words := GetWordList(wordmap).value;
    var docs := GetDocList(docmap).value;
    LoadWordTopicProbs(NewIndex(words, docs), phi).value
  }

  // ---------------------------------------------------------------------------
  // Word given topic
  // ---------------------------------------------------------------------------

  /** The word-topic file has a cell for `word` under `topic`: line `topic`
      reaches a vocabulary slot whose text is `word`. */
  predicate HasWordTopicCell(phi: seq<seq<real>>, wordList: seq<JString>, word: string, topic: int)
  {
    && 0 <= topic < |phi|
    && exists j :: 0 <= j < |phi[topic]| && j < |wordList| && Text(wordList[j]) == word
  }

  /** After a load, getWordTopicProb(word, topic) has a value exactly when the
      word-topic file has a cell for that word and topic. */
  lemma LoadWordTopicKeyPresent(wordmap: seq<string>, docmap: seq<string>, phi: seq<seq<real>>, theta: seq<seq<real>>,
                                word: string, topic: int)
    requires LoadLDAProbs(wordmap, docmap, phi, theta).Success?
    ensures var r := LoadLDAProbs(wordmap, docmap, phi, theta).value;
      WordKey(word, topic) in r.wordTopicProbs <==> HasWordTopicCell(phi, r.wordList, word, topic)
  {
    var r := LoadLDAProbs(wordmap, docmap, phi, theta).value;
    var key := WordKey(word, topic);
    if key in WordTopicKeys(r.wordList, phi) {
      var t, j :| 0 <= t < |phi| && 0 <= j < |phi[t]| && j < |r.wordList| && key == WordKey(Text(r.wordList[j]), t);
      WordKeyInjective(word, topic, Text(r.wordList[j]), t);
    }
    if HasWordTopicCell(phi, r.wordList, word, topic) {
      var j :| 0 <= j < |phi[topic]| && j < |r.wordList| && Text(r.wordList[j]) == word;
      assert key == WordKey(Text(r.wordList[j]), topic);
    }
  }

  /** With distinct vocabulary texts, getWordTopicProb for word slot j and
      topic t returns column j of line t of the word-topic file. */
  lemma LoadWordTopicRoundTrip(wordmap: seq<string>, docmap: seq<string>, phi: seq<seq<real>>, theta: seq<seq<real>>,
                               t: nat, j: nat)
    requires LoadLDAProbs(wordmap, docmap, phi, theta).Success?
    requires DistinctTexts(LoadLDAProbs(wordmap, docmap, phi, theta).value.wordList)
    requires t < |phi| && j < |phi[t]|
    ensures var r := LoadLDAProbs(wordmap, docmap, phi, theta).value;
      && j < |r.wordList|
      && WordKey(Text(r.wordList[j]), t) in r.wordTopicProbs
      && GetWordTopicProb(r, Text(r.wordList[j]), t) == phi[t][j]
  {
    var r := LoadLDAProbs(wordmap, docmap, phi, theta).value;
    var q := AfterWordTopics(wordmap, docmap, phi, theta);
    PutWordTopicRowsCell(NewIndex(r.wordList, r.docList), phi, t, j);
  }

  // ---------------------------------------------------------------------------
  // Topic given document
  // ---------------------------------------------------------------------------

  /** The topic-document file has a cell for `topic` under `doc`: some line
      with a document slot whose text is `doc` is wider than `topic`. */
  predicate HasTopicDocCell(theta: seq<seq<real>>, docList: seq<JString>, topic: int, doc: string)
  {
    exists d :: 0 <= d < |theta| && d < |docList| && 0 <= topic < |theta[d]| && Text(docList[d]) == doc
  }

  /** After a load, a topic-document probability is stored exactly when the
      topic-document file has a cell for that topic and document. */
  lemma LoadTopicDocKeyPresent(wordmap: seq<string>, docmap: seq<string>, phi: seq<seq<real>>, theta: seq<seq<real>>,
                               topic: int, doc: string)
    requires LoadLDAProbs(wordmap, docmap, phi, theta).Success?
    ensures var r := LoadLDAProbs(wordmap, docmap, phi, theta).value;
      TopicDocKey(topic, doc) in r.topicDocProbs <==> HasTopicDocCell(theta, r.docList, topic, doc)
  {
    var r := LoadLDAProbs(wordmap, docmap, phi, theta).value;
    var key := TopicDocKey(topic, doc);
    if key in TopicDocKeys(r.docList, theta) {
      var d, t :| 0 <= d < |theta| && d < |r.docList| && 0 <= t < |theta[d]| && key == TopicDocKey(t, Text(r.docList[d]));
      TopicDocKeyInjective(topic, doc, t, Text(r.docList[d]));
    }
    if HasTopicDocCell(theta, r.docList, topic, doc) {
      var d :| 0 <= d < |theta| && d < |r.docList| && 0 <= topic < |theta[d]| && Text(r.docList[d]) == doc;
      assert key == TopicDocKey(topic, Text(r.docList[d]));
    }
  }

  /** getTopicDocProb answers 0 for any topic and document the topic-document
      file has no cell for. */
  lemma LoadTopicDocAbsent(wordmap: seq<string>, docmap: seq<string>, phi: seq<seq<real>>, theta: seq<seq<real>>,
                           topic: int, doc: string)
    requires LoadLDAProbs(wordmap, docmap, phi, theta).Success?
    requires !HasTopicDocCell(theta, LoadLDAProbs(wordmap, docmap, phi, theta).value.docList, topic, doc)
    ensures GetTopicDocProb(LoadLDAProbs(wordmap, docmap, phi, theta).value, topic, doc) == 0.0
  {
    LoadTopicDocKeyPresent(wordmap, docmap, phi, theta, topic, doc);
  }

  /** With distinct document texts, getTopicDocProb for topic t and document
      slot d returns column t of line d of the topic-document file. */
  lemma LoadTopicDocRoundTrip(wordmap: seq<string>, docmap: seq<string>, phi: seq<seq<real>>, theta: seq<seq<real>>,
                              d: nat, t: nat)
    requires LoadLDAProbs(wordmap, docmap, phi, theta).Success?
    requires DistinctTexts(LoadLDAProbs(wordmap, docmap, phi, theta).value.docList)
    requires d < |theta| && t < |theta[d]|
    ensures var r := LoadLDAProbs(wordmap, docmap, phi, theta).value;
      && d < |r.docList|
      && GetTopicDocProb(r, t, Text(r.docList[d])) == theta[d][t]
  {
    var r := LoadLDAProbs(wordmap, docmap, phi, theta).value;
    var q := AfterWordTopics(wordmap, docmap, phi, theta);
    assert FitsDocuments(theta, |r.docList|);
    PutTopicDocRowsCell(q, theta, d, t);
  }

  // ---------------------------------------------------------------------------
  // Most likely topic
  // ---------------------------------------------------------------------------

  /** Line `row` of the topic-document file as getMostLikelyTopic sees it over
      `width` topics: columns past the end of the line read 0, columns past
      the topic count are never asked for. */
  function PaddedLine(row: seq<real>, width: nat): (c: seq<real>)
    ensures |c| == width
    ensures forall t :: 0 <= t < width ==> c[t] == if t < |row| then row[t] else 0.0
  {
    seq(width, t requires 0 <= t => if t < |row| then row[t] else 0.0)
  }

  /** With distinct document texts, getMostLikelyTopic of document slot d is
      the position of the first maximum of line d of the topic-document file
      (or -1), the line cut or padded with zeros to the topic count. */
  lemma LoadMostLikelyTopic(wordmap: seq<string>, docmap: seq<string>, phi: seq<seq<real>>, theta: seq<seq<real>>, d: nat)
    requires LoadLDAProbs(wordmap, docmap, phi, theta).Success?
    requires DistinctTexts(LoadLDAProbs(wordmap, docmap, phi, theta).value.docList)
    requires d < |theta| && d < |LoadLDAProbs(wordmap, docmap, phi, theta).value.docList|
    ensures var r := LoadLDAProbs(wordmap, docmap, phi, theta).value;
      GetMostLikelyTopic(r, Text(r.docList[d])) == ArgMaxScan(PaddedLine(theta[d], |phi|)).0
  {
    var r := LoadLDAProbs(wordmap, docmap, phi, theta).value;
    var doc := Text(r.docList[d]);
    var line := PaddedLine(theta[d], |phi|);
    forall t | 0 <= t < |phi|
      ensures TopicColumn(r, doc)[t] == line[t]
    {
      if t < |theta[d]| {
        LoadTopicDocRoundTrip(wordmap, docmap, phi, theta, d, t);
      } else {
        assert forall d' :: 0 <= d' < |r.docList| && Text(r.docList[d']) == doc ==> d' == d;
        LoadTopicDocAbsent(wordmap, docmap, phi, theta, t, doc);
      }
    }
    assert TopicColumn(r, doc) == line;
  }

  /** Probabilities are never negative, so once there is a topic every
      document, loaded or not, gets one. */
  lemma LoadMostLikelyTopicNonNegative(wordmap: seq<string>, docmap: seq<string>, phi: seq<seq<real>>, theta: seq<seq<real>>,
                                       doc: string)
    requires LoadLDAProbs(wordmap, docmap, phi, theta).Success?
    requires NonNegativeMatrix(theta)
    requires 0 < |phi|
    ensures 0 <= GetMostLikelyTopic(LoadLDAProbs(wordmap, docmap, phi, theta).value, doc) < |phi|
  {
    var r := LoadLDAProbs(wordmap, docmap, phi, theta).value;
    var q := AfterWordTopics(wordmap, docmap, phi, theta);
    assert NonNegativeValues(r.topicDocProbs);
    forall t | 0 <= t < r.numTopics
      ensures GetTopicDocProb(r, t, doc) > Sentinel
    {
    }
    MostLikelyTopicAboveSentinel(r, doc);
  }

  // ---------------------------------------------------------------------------
  // A small model
  // ---------------------------------------------------------------------------

  /** The files the estimator writes for the vocabulary ["a", "b"] and the
      document ids ["d1"]. */
  lemma ExampleMapFiles()
    ensures WordmapLines(["a", "b"]) == ["2", "a 0", "b 1"]
    ensures DocmapLines(["d1"]) == ["1", "d1"]
  {
    assert IntToDecimal(0) == "0" && IntToDecimal(1) == "1" && IntToDecimal(2) == "2";
    var wordmap := WordmapLines(["a", "b"]);
    assert wordmap[1] == FormatWordLine("a", 0) == "a 0";
    assert wordmap[2] == FormatWordLine("b", 1) == "b 1";
  }

  /** Reading the estimator's vocabulary file for ["a", "b"] gives back the
      two words. */
  lemma ExampleWordList()
    ensures GetWordList(WordmapLines(["a", "b"])) == Success([Str("a"), Str("b")])
  {
    WordmapRoundTrip(["a", "b"]);
    var w := GetWordList(WordmapLines(["a", "b"])).value;
    assert |w| == 2 && w[0] == Str("a") && w[1] == Str("b");
    assert w == [Str("a"), Str("b")];
    assert GetWordList(WordmapLines(["a", "b"])) == Success(w);
  }

  /** Reading the estimator's document file for ["d1"] gives back the one id. */
  lemma ExampleDocList()
    ensures GetDocList(DocmapLines(["d1"])) == Success([Str("d1")])
  {
    DocmapRoundTrip(["d1"]);
    var ds := GetDocList(DocmapLines(["d1"])).value;
    assert |ds| == 1 && ds[0] == Str("d1");
    assert ds == [Str("d1")];
    assert GetDocList(DocmapLines(["d1"])) == Success(ds);
  }

  /** Loading the two map files above with a two-topic word-topic file and
      a one-line topic-document file succeeds. */
  lemma ExampleLoad(wordmap: seq<string>, docmap: seq<string>, phi: seq<seq<real>>, theta: seq<seq<real>>)
    requires GetWordList(wordmap) == Success([Str("a"), Str("b")])
    requires GetDocList(docmap) == Success([Str("d1")])
    requires phi == [[0.9, 0.1], [0.4, 0.6]] && theta == [[0.3, 0.7]]
    ensures LoadLDAProbs(wordmap, docmap, phi, theta).Success?
    ensures LoadLDAProbs(wordmap, docmap, phi, theta).value.wordList == [Str("a"), Str("b")]
    ensures LoadLDAProbs(wordmap, docmap, phi, theta).value.docList == [Str("d1")]
  {
    assert FitsVocabulary(phi, 2) && FitsDocuments(theta, 1);
  }

  /** In that model, word "a" has probability 0.9 under topic 0. */
  lemma ExampleWordTopic(wordmap: seq<string>, docmap: seq<string>, phi: seq<seq<real>>, theta: seq<seq<real>>)
    requires LoadLDAProbs(wordmap, docmap, phi, theta).Success?
    requires LoadLDAProbs(wordmap, docmap, phi, theta).value.wordList == [Str("a"), Str("b")]
    requires 0 < |phi| && 0 < |phi[0]| && phi[0][0] == 0.9
    ensures WordKey("a", 0) in LoadLDAProbs(wordmap, docmap, phi, theta).value.wordTopicProbs
    ensures GetWordTopicProb(LoadLDAProbs(wordmap, docmap, phi, theta).value, "a", 0) == 0.9
  {
    var r := LoadLDAProbs(wordmap, docmap, phi, theta).value;
    assert DistinctTexts(r.wordList);
    assert Text(r.wordList[0]) == "a";
    LoadWordTopicRoundTrip(wordmap, docmap, phi, theta, 0, 0);
  }

  /** In that model, document "d1" leans to topic 1 (0.7 against 0.3). */
  lemma ExampleMostLikelyTopic(wordmap: seq<string>, docmap: seq<string>, phi: seq<seq<real>>, theta: seq<seq<real>>)
    requires LoadLDAProbs(wordmap, docmap, phi, theta).Success?
    requires LoadLDAProbs(wordmap, docmap, phi, theta).value.docList == [Str("d1")]
    requires |phi| == 2 && |theta| == 1 && theta[0] == [0.3, 0.7]
    ensures GetMostLikelyTopic(LoadLDAProbs(wordmap, docmap, phi, theta).value, "d1") == 1
  {
    LoadMostLikelyTopic(wordmap, docmap, phi, theta, 0);
    ExampleScan();
  }

  /** The scan over [0.3, 0.7], a line exactly as wide as the two topics,
      settles on position 1. */
  lemma ExampleScan()
    ensures ArgMaxScan(PaddedLine([0.3, 0.7], 2)).0 == 1
  {
    assert PaddedLine([0.3, 0.7], 2) == [0.3, 0.7];
    assert [0.3, 0.7][..1] == [0.3];
    assert [0.3][..0] == [];
  }

  /** Two words, one document, two topics, read from the estimator's files for
      that vocabulary and those documents (spelled out line by line):
      word "a" has probability 0.9 under topic 0, and document "d1" leans to
      topic 1. */
  lemma TwoTopicExample(wordmap: seq<string>, docmap: seq<string>, phi: seq<seq<real>>, theta: seq<seq<real>>)
    requires wordmap == WordmapLines(["a", "b"]) && docmap == DocmapLines(["d1"])
    requires phi == [[0.9, 0.1], [0.4, 0.6]] && theta == [[0.3, 0.7]]
    ensures wordmap == ["2", "a 0", "b 1"] && docmap == ["1", "d1"]
    ensures var r := LoadLDAProbs(wordmap, docmap, phi, theta);
      && r.Success?
      && WordKey("a", 0) in r.value.wordTopicProbs
      && GetWordTopicProb(r.value, "a", 0) == 0.9
      && GetMostLikelyTopic(r.value, "d1") == 1
  {
    assert wordmap == ["2", "a 0", "b 1"] && docmap == ["1", "d1"] by {
      ExampleMapFiles();
    }
    ExampleWordList();
    ExampleDocList();
    ExampleLoad(wordmap, docmap, phi, theta);
    ExampleWordTopic(wordmap, docmap, phi, theta);
    ExampleMostLikelyTopic(wordmap, docmap, phi, theta);
  }
}
