/**
 The probability index LDAProbsImpl: two exact-key maps over composite string
 keys (word-given-topic and topic-given-document), the vocabulary and document
 arrays, the topic count, and the queries over them. The radix trees of the
 Java class are used only through `put` and `getValueForExactKey`, so each is a
 `map<string, real>` here.
 */
module LDAProbsImpl {
  import opened Wrappers
  import opened JavaLang

  /** The index's state. Slots of the two arrays may still be null when the
      map files supplied fewer entries than they declared. */
  datatype ProbIndex = ProbIndex(
    wordTopicProbs: map<string, real>,
    topicDocProbs: map<string, real>,
    wordList: seq<JString>,
    docList: seq<JString>,
    numTopics: nat)

  /** A freshly constructed index: it keeps the two arrays, has no topics yet,
      knows no word-topic key and reads 0 for every topic and document. */
  function NewIndex(wordList: seq<JString>, docList: seq<JString>): (p: ProbIndex)
    ensures p.wordList == wordList && p.docList == docList && p.numTopics == 0
    ensures forall w, t :: WordKey(w, t) !in p.wordTopicProbs
    ensures forall t, d :: GetTopicDocProb(p, t, d) == 0.0
  {
    ProbIndex(map[], map[], wordList, docList, 0)
  }

  // ---------------------------------------------------------------------------
  // Composite keys
  // ---------------------------------------------------------------------------

  const Separator: char := ':'

  /** getKey: the two components joined by a colon. */
  function GetKey(desired: string, given: string): string
  {
    desired + [Separator] + given
  }

  /** Joining is injective when the first components carry no colon: the first
      colon of the key marks where the first component ends. */
  lemma {:induction false} GetKeyInjectiveOnDesired(a: string, b: string, a': string, b': string)
    requires Separator !in a && Separator !in a'
    ensures GetKey(a, b) == GetKey(a', b') <==> a == a' && b == b'
  {
    if GetKey(a, b) == GetKey(a', b') {
      var k := GetKey(a, b);
      assert k[|a|] == Separator && k[|a'|] == Separator;
      assert forall i :: 0 <= i < |a| ==> k[i] == a[i];
      assert forall i :: 0 <= i < |a'| ==> k[i] == a'[i];
      assert |a| == |a'|;
      assert a == k[..|a|] && a' == k[..|a'|];
      assert b == k[|a| + 1..] && b' == k[|a'| + 1..];
    }
  }

  /** Joining is injective when the second components carry no colon: the last
      colon of the key marks where the second component starts. */
  lemma {:induction false} GetKeyInjectiveOnGiven(a: string, b: string, a': string, b': string)
    requires Separator !in b && Separator !in b'
    ensures GetKey(a, b) == GetKey(a', b') <==> a == a' && b == b'
  {
    if GetKey(a, b) == GetKey(a', b') {
      var k := GetKey(a, b);
      var k' := GetKey(a', b');
      var n := |k|;
      assert k[n - 1 - |b|] == Separator && k[n - 1 - |b'|] == Separator;
      assert forall i :: 0 <= i < |b| ==> k[n - |b| + i] == b[i];
      assert forall i :: 0 <= i < |b'| ==> k[n - |b'| + i] == b'[i];
      assert |b| == |b'|;
      assert a == k[..|a|] && a' == k'[..|a'|];
      assert b == k[|a| + 1..] && b' == k'[|a'| + 1..];
    }
  }

  /** The key of a word-given-topic probability: `word + ":" + topic`. */
  function WordKey(word: string, topic: int): string
  {
    GetKey(word, IntToDecimal(topic))
  }

  /** The key of a topic-given-document probability: `topic + ":" + doc`. */
  function TopicDocKey(topic: int, doc: string): string
  {
    GetKey(IntToDecimal(topic), doc)
  }

  /** Word keys never collide, whatever the word: the topic numeral has no colon. */
  lemma WordKeyInjective(w: string, t: int, w': string, t': int)
    ensures WordKey(w, t) == WordKey(w', t') <==> w == w' && t == t'
  {
    GetKeyInjectiveOnGiven(w, IntToDecimal(t), w', IntToDecimal(t'));
    IntToDecimalInjective(t, t');
  }

  /** Topic-document keys never collide, whatever the document id. */
  lemma TopicDocKeyInjective(t: int, d: string, t': int, d': string)
    ensures TopicDocKey(t, d) == TopicDocKey(t', d') <==> t == t' && d == d'
  {
    GetKeyInjectiveOnDesired(IntToDecimal(t), d, IntToDecimal(t'), d');
    IntToDecimalInjective(t, t');
  }

  // ---------------------------------------------------------------------------
  // Insertion
  // ---------------------------------------------------------------------------

  /** putWordTopic: store `prob` under the key of vocabulary slot `word` and
      `topic`; a slot outside the vocabulary array raises. */
  function PutWordTopic(p: ProbIndex, word: int, topic: int, prob: real): (r: Result<ProbIndex, Exception>)
    ensures r.Success? <==> 0 <= word < |p.wordList|
    ensures r.Failure? ==> r.error == IndexOutOfBounds(word, |p.wordList|)
    ensures r.Success? ==> r.value == p.(wordTopicProbs := r.value.wordTopicProbs)
    ensures r.Success? ==>
      var key := WordKey(Text(p.wordList[word]), topic);
      && r.value.wordTopicProbs.Keys == p.wordTopicProbs.Keys + {key}
      && r.value.wordTopicProbs[key] == prob
      && forall k :: k in p.wordTopicProbs && k != key ==> r.value.wordTopicProbs[k] == p.wordTopicProbs[k]
  {
    if 0 <= word < |p.wordList| then
      Success(p.(wordTopicProbs := p.wordTopicProbs[WordKey(Text(p.wordList[word]), topic) := prob]))
    else
      Failure(IndexOutOfBounds(word, |p.wordList|))
  }

  /** putTopicDoc: store `prob` under the key of `topic` and document slot
      `doc`; a slot outside the document array raises. */
  function PutTopicDoc(p: ProbIndex, topic: int, doc: int, prob: real): (r: Result<ProbIndex, Exception>)
    ensures r.Success? <==> 0 <= doc < |p.docList|
    ensures r.Failure? ==> r.error == IndexOutOfBounds(doc, |p.docList|)
    ensures r.Success? ==> r.value == p.(topicDocProbs := r.value.topicDocProbs)
    ensures r.Success? ==>
      var key := TopicDocKey(topic, Text(p.docList[doc]));
      && r.value.topicDocProbs.Keys == p.topicDocProbs.Keys + {key}
      && r.value.topicDocProbs[key] == prob
      && forall k :: k in p.topicDocProbs && k != key ==> r.value.topicDocProbs[k] == p.topicDocProbs[k]
  {
    if 0 <= doc < |p.docList| then
      Success(p.(topicDocProbs := p.topicDocProbs[TopicDocKey(topic, Text(p.docList[doc])) := prob]))
    else
      Failure(IndexOutOfBounds(doc, |p.docList|))
  }

  // ---------------------------------------------------------------------------
  // Queries
  // ---------------------------------------------------------------------------

  /** getWordTopicProb. An absent key would unbox null and throw; callers must
      ask only for stored keys. */
  function GetWordTopicProb(p: ProbIndex, word: string, topic: int): real
    requires WordKey(word, topic) in p.wordTopicProbs
  {
    p.wordTopicProbs[WordKey(word, topic)]
  }

  /** getTopicDocProb: the stored probability, or 0 when the key is absent. */
  function GetTopicDocProb(p: ProbIndex, topic: int, doc: string): real
  {
    var key := TopicDocKey(topic, doc);
    if key in p.topicDocProbs then p.topicDocProbs[key] else 0.0
  }

  /** Reading back after putWordTopic: the key of the stored (word, topic)
      pair is present and reads the new value; every other pair keeps both
      its presence and its value. */
  lemma GetWordTopicProbAfterPut(p: ProbIndex, word: int, topic: int, prob: real, w: string, t: int)
    requires PutWordTopic(p, word, topic, prob).Success?
    ensures var q := PutWordTopic(p, word, topic, prob).value;
      var hit := w == Text(p.wordList[word]) && t == topic;
      && (WordKey(w, t) in q.wordTopicProbs <==> hit || WordKey(w, t) in p.wordTopicProbs)
      && (hit ==> GetWordTopicProb(q, w, t) == prob)
      && (!hit && WordKey(w, t) in p.wordTopicProbs ==> GetWordTopicProb(q, w, t) == GetWordTopicProb(p, w, t))
  {
    WordKeyInjective(w, t, Text(p.wordList[word]), topic);
  }

  /** Reading back after putTopicDoc: the stored (topic, document) pair reads
      the new value and every other pair reads what it read before. */
  lemma GetTopicDocProbAfterPut(p: ProbIndex, topic: int, doc: int, prob: real, t: int, d: string)
    requires PutTopicDoc(p, topic, doc, prob).Success?
    ensures var q := PutTopicDoc(p, topic, doc, prob).value;
      GetTopicDocProb(q, t, d) == if t == topic && d == Text(p.docList[doc]) then prob else GetTopicDocProb(p, t, d)
  {
    TopicDocKeyInjective(t, d, topic, Text(p.docList[doc]));
  }

  /** The sentinel both the best index and the best probability start from. */
  const NoTopic: int := -1
  const Sentinel: real := -1.0

  /** The loop of getMostLikelyTopic over the values `ps`, as the pair
      (maxIndex, topProb) it leaves behind: a value replaces the current best
      only when strictly greater, starting from index -1 and probability -1. */
  function ArgMaxScan(ps: seq<real>): (r: (int, real))
    ensures NoTopic <= r.0 < |ps|
    ensures r.0 == NoTopic <==> forall t :: 0 <= t < |ps| ==> ps[t] <= Sentinel
    ensures r.0 == NoTopic ==> r.1 == Sentinel
    ensures r.0 != NoTopic ==>
      && r.1 == ps[r.0] > Sentinel
      && (forall t :: 0 <= t < |ps| ==> ps[t] <= ps[r.0])
      && (forall t :: 0 <= t < r.0 ==> ps[t] < ps[r.0])
    decreases |ps|
  {
    if |ps| == 0 then (NoTopic, Sentinel)
    else
      var best := ArgMaxScan(ps[..|ps| - 1]);
      if ps[|ps| - 1] > best.1 then (|ps| - 1, ps[|ps| - 1]) else best
  }

  /** The topic-given-document probabilities of `doc` for topics 0..numTopics-1. */
  function TopicColumn(p: ProbIndex, doc: string): (ps: seq<real>)
    ensures |ps| == p.numTopics
    ensures forall t :: 0 <= t < |ps| ==> ps[t] == GetTopicDocProb(p, t, doc)
  {
    seq(p.numTopics, t requires 0 <= t => GetTopicDocProb(p, t, doc))
  }

  /** getMostLikelyTopic: the lowest topic whose probability is the maximum,
      or -1 when there are no topics or none beats the sentinel. */
  function GetMostLikelyTopic(p: ProbIndex, doc: string): (k: int)
    ensures NoTopic <= k < p.numTopics
    ensures k == NoTopic <==> forall t :: 0 <= t < p.numTopics ==> GetTopicDocProb(p, t, doc) <= Sentinel
    ensures k != NoTopic ==>
      && (forall t :: 0 <= t < p.numTopics ==> GetTopicDocProb(p, t, doc) <= GetTopicDocProb(p, k, doc))
      && (forall t :: 0 <= t < k ==> GetTopicDocProb(p, t, doc) < GetTopicDocProb(p, k, doc))
  {
    ArgMaxScan(TopicColumn(p, doc)).0
  }

  /** No topics means no answer. */
  lemma MostLikelyTopicWithoutTopics(p: ProbIndex, doc: string)
    requires p.numTopics == 0
    ensures GetMostLikelyTopic(p, doc) == NoTopic
  {
  }

  /** Probabilities all above the sentinel always yield a topic. */
  lemma MostLikelyTopicAboveSentinel(p: ProbIndex, doc: string)
    requires 0 < p.numTopics
    requires forall t :: 0 <= t < p.numTopics ==> GetTopicDocProb(p, t, doc) > Sentinel
    ensures 0 <= GetMostLikelyTopic(p, doc) < p.numTopics
  {
    assert GetTopicDocProb(p, 0, doc) > Sentinel;
  }

  /** Ties go to the earlier topic: the column [0.2, 0.5, 0.5, 0.1] gives 1. */
  lemma MostLikelyTopicTieBreak(p: ProbIndex, doc: string)
    requires p.numTopics == 4
    requires GetTopicDocProb(p, 0, doc) == 0.2 && GetTopicDocProb(p, 1, doc) == 0.5
    requires GetTopicDocProb(p, 2, doc) == 0.5 && GetTopicDocProb(p, 3, doc) == 0.1
    ensures GetMostLikelyTopic(p, doc) == 1
  {
    var k := GetMostLikelyTopic(p, doc);
    assert k != NoTopic by {
      assert GetTopicDocProb(p, 0, doc) > Sentinel;
    }
    assert GetTopicDocProb(p, 1, doc) <= GetTopicDocProb(p, k, doc);
  }
}
