# LDAProbsLoader in Dafny

A model of the LDA probability index in the ETHz headline generator.
`LDAProbsLoader` reads the four files a GibbsLDA-style estimator leaves in its model directory:

- `wordmap.txt`: a count line, then lines `word index`.
- `docmap.txt`: a count line, then one document id per line.
- `<model>.phi`: one line per topic, one column per vocabulary word.
- `<model>.theta`: one line per document, one column per topic.

From these it builds `LDAProbsImpl`. That index stores two exact-key maps over composite string keys:

- `word:topic` holds P(word | topic);
- `topic:doc` holds P(topic | document).

It answers three queries:

- `getWordTopicProb`;
- `getTopicDocProb`, which gives 0 for an absent key;
- `getMostLikelyTopic`, the first topic with the largest `getTopicDocProb` for a document, or -1.

The project has five files:

- `wrappers.dfy`: `Option` and `Result`. A `Result` failure stands for a Java exception that aborts the load.
- `java_lang.dfy`: the parts of Java the loader depends on.
  - Nullable strings, and how `+` turns null into the text "null".
  - The three unchecked exceptions a load can raise.
  - `String.split(" ")`, with its removal of trailing empty strings.
  - `Integer.parseInt` with the 32-bit range, and `"" + i`.
- `lda_probs_impl.dfy`: `LDAProbsImpl`, meaning the keys, the two `put` operations, the lookups and the argmax scan.
- `lda_probs_loader.dfy`: `getWordList`, `getDocList`, `loadWordTopicProbs`, `loadTopicDocProbs`, and their composition `loadLDAProbs`.
- `lda_probs_properties.dfy`: what a successful load promises to the queries, plus a small worked model.

Inputs are modelled as follows:

- A file is the sequence of lines `readLine` returns.
- Each line of a matrix file is given already split and converted to reals.
  A row of width 0 is a line made only of spaces, which `split(" ")` turns into no fields.

Where the code is looser than its file formats suggest, the model follows the code:

- **Short map files.** Neither map reader rejects a file with fewer data lines than its count line declares. The missing slots stay null. Their keys then use the text "null".
- **Row widths.** `loadWordTopicProbs` only fails when a line is wider than the vocabulary. Narrower lines are stored as they are.
- **Topic-document shape.** `loadTopicDocProbs` never compares its column count with the topic count. A line beyond the document array fails only when it has a column. `getMostLikelyTopic` reads the missing columns of a narrower line as 0 and never looks at the extra columns of a wider one.
- **Topic count.** `numTopics` is the number of lines of the word-topic file.
- **Key collisions.** There is no guard against a colon inside a word or a document id. It is not needed for unambiguous keys, because the topic numeral never holds a colon:
  - `LDAProbsImpl.WordKeyInjective` and `LDAProbsImpl.TopicDocKeyInjective` hold for all words and documents;
  - the last colon of a word key and the first colon of a topic-document key mark the split.
- **Absent word keys.** `getWordTopicProb` has no check of its own for an unknown word or topic; on an absent key it unboxes null and throws.

## Model

| member | source | states |
|---|---|---|
| JavaLang.IntToDecimal | ETHz_HeadlineGen/src/ethz/nlp/headgen/lda/LDAProbsLoader.java:153 | the topic numeral `"" + topic` is non-empty, holds no space and no colon, and starts with '-' exactly when the topic is negative |
| JavaLang.IntToDecimalInjective | ETHz_HeadlineGen/src/ethz/nlp/headgen/lda/LDAProbsLoader.java:157 | two topics have the same numeral if and only if they are equal |
| JavaLang.ParseInt | ETHz_HeadlineGen/src/ethz/nlp/headgen/lda/LDAProbsLoader.java:76 | an accepted count or index lies in the 32-bit range, comes from a text that starts with a digit or with a sign followed by more, whose other characters are all digits, and is negative only after a '-' |
| JavaLang.ParseIntCanonical | ETHz_HeadlineGen/src/ethz/nlp/headgen/lda/LDAProbsLoader.java:80 | a text parseInt accepts, without a '+' or a leading zero, is exactly the numeral `"" + i` of the value it reads |
| JavaLang.ParseIntOfIntToDecimal | ETHz_HeadlineGen/src/ethz/nlp/headgen/lda/LDAProbsLoader.java:80 | parseInt reads back every 32-bit value that `"" + i` writes |
| JavaLang.Split | ETHz_HeadlineGen/src/ethz/nlp/headgen/lda/LDAProbsLoader.java:79 | no field of `line.split(" ")` holds a space, and a line without a space comes back whole |
| JavaLang.JoinWithSpacesOfPieces | ETHz_HeadlineGen/src/ethz/nlp/headgen/lda/LDAProbsLoader.java:79 | cutting a line at its spaces loses nothing: gluing the pieces back gives the line |
| JavaLang.SplitOfJoinWithSpaces | ETHz_HeadlineGen/src/ethz/nlp/headgen/lda/LDAProbsLoader.java:79 | splitting space-free fields glued with single spaces gives back the fields when the last one is non-empty |
| LDAProbsImpl.GetKeyInjectiveOnDesired | ETHz_HeadlineGen/src/ethz/nlp/headgen/lda/LDAProbsLoader.java:160-162 | when neither first component holds a colon, two keys are equal if and only if both components are |
| LDAProbsImpl.GetKeyInjectiveOnGiven | ETHz_HeadlineGen/src/ethz/nlp/headgen/lda/LDAProbsLoader.java:160-162 | when neither second component holds a colon, two keys are equal if and only if both components are |
| LDAProbsImpl.WordKeyInjective | ETHz_HeadlineGen/src/ethz/nlp/headgen/lda/LDAProbsLoader.java:152-154 | word-topic keys are equal if and only if word and topic are, for every word text |
| LDAProbsImpl.TopicDocKeyInjective | ETHz_HeadlineGen/src/ethz/nlp/headgen/lda/LDAProbsLoader.java:156-158 | topic-document keys are equal if and only if topic and document are, for every document text |
| LDAProbsImpl.NewIndex | ETHz_HeadlineGen/src/ethz/nlp/headgen/lda/LDAProbsLoader.java:147-150 | a new index keeps the two arrays, has no topics, holds no word-topic key, and reads 0 for every topic and document |
| LDAProbsImpl.PutWordTopic | ETHz_HeadlineGen/src/ethz/nlp/headgen/lda/LDAProbsLoader.java:152-154 | succeeds exactly for a slot inside the vocabulary array, else raises the out-of-bounds error; adds just that slot's key with the new value and changes no other key or field |
| LDAProbsImpl.PutTopicDoc | ETHz_HeadlineGen/src/ethz/nlp/headgen/lda/LDAProbsLoader.java:156-158 | succeeds exactly for a slot inside the document array, else raises; adds just that key with the new value and changes no other key or field |
| LDAProbsImpl.GetWordTopicProbAfterPut | ETHz_HeadlineGen/src/ethz/nlp/headgen/lda/LDAProbsLoader.java:165-167 | after putWordTopic, the stored word and topic are present and read the new value; every other pair keeps its presence and its value |
| LDAProbsImpl.GetTopicDocProbAfterPut | ETHz_HeadlineGen/src/ethz/nlp/headgen/lda/LDAProbsLoader.java:170-175 | after putTopicDoc, the stored topic and document read the new value; every other pair reads what it read before |
| LDAProbsImpl.ArgMaxScan | ETHz_HeadlineGen/src/ethz/nlp/headgen/lda/LDAProbsLoader.java:194-203 | the scan's index is -1 exactly when no value beats -1; otherwise it holds a maximum, and every earlier value is strictly smaller |
| LDAProbsImpl.GetMostLikelyTopic | ETHz_HeadlineGen/src/ethz/nlp/headgen/lda/LDAProbsLoader.java:193-204 | the answer is -1 or a topic below numTopics; it is -1 exactly when every topic's probability is at most -1; otherwise that topic's probability is maximal and every lower topic's is strictly smaller |
| LDAProbsImpl.MostLikelyTopicWithoutTopics | ETHz_HeadlineGen/src/ethz/nlp/headgen/lda/LDAProbsLoader.java:196 | with no topics the answer is -1 |
| LDAProbsImpl.MostLikelyTopicAboveSentinel | ETHz_HeadlineGen/src/ethz/nlp/headgen/lda/LDAProbsLoader.java:194-203 | with at least one topic and every probability above -1, the answer is a real topic |
| LDAProbsImpl.MostLikelyTopicTieBreak | ETHz_HeadlineGen/src/ethz/nlp/headgen/lda/LDAProbsLoader.java:198-201 | the column 0.2, 0.5, 0.5, 0.1 gives topic 1, not 2 |
| LDAProbsLoader.ParseWordLine | ETHz_HeadlineGen/src/ethz/nlp/headgen/lda/LDAProbsLoader.java:79-80 | a line succeeds exactly when it has a second field that parseInt accepts; with fewer than two fields it raises out-of-bounds on field 1, and with an unparsable second field the number-format error for that field; a parsed entry's word is the first field, is space-free, and its index is parseInt of the second field |
| LDAProbsLoader.WordLineRoundTrip | ETHz_HeadlineGen/src/ethz/nlp/headgen/lda/LDAProbsLoader.java:79-81 | the line `word index` reads back as that word and index |
| LDAProbsLoader.PlaceWord | ETHz_HeadlineGen/src/ethz/nlp/headgen/lda/LDAProbsLoader.java:81 | the assignment succeeds exactly for a well-formed line whose index is inside the array, and otherwise raises the line's number-format error or out-of-bounds at its index; it writes that slot and no other |
| LDAProbsLoader.PlaceWords | ETHz_HeadlineGen/src/ethz/nlp/headgen/lda/LDAProbsLoader.java:78-82 | the loop succeeds exactly when every line is well formed with an index inside the array, and otherwise raises the exception of the first line that is not; it keeps the array length |
| LDAProbsLoader.PlaceWordsUntouched | ETHz_HeadlineGen/src/ethz/nlp/headgen/lda/LDAProbsLoader.java:78-82 | a slot that no line names keeps its old content |
| LDAProbsLoader.PlaceWordsLastWriter | ETHz_HeadlineGen/src/ethz/nlp/headgen/lda/LDAProbsLoader.java:78-82 | the last line naming a slot decides its word, so a later line overwrites an earlier one |
| LDAProbsLoader.GetWordList | ETHz_HeadlineGen/src/ethz/nlp/headgen/lda/LDAProbsLoader.java:68-89 | a missing or unparsable count line and a negative count raise the matching exceptions; the read succeeds exactly when the count is sound and every data line places, and otherwise raises the number-format or out-of-bounds error of the first data line that does not; the array has the declared length |
| LDAProbsLoader.GetWordListSlots | ETHz_HeadlineGen/src/ethz/nlp/headgen/lda/LDAProbsLoader.java:76-82 | unnamed slots of the array are null, and each named slot holds the word of the last line naming it |
| LDAProbsLoader.WordmapRoundTrip | ETHz_HeadlineGen/src/ethz/nlp/headgen/lda/LDAProbsLoader.java:68-89 | the vocabulary file written for a list of space-free words reads back as exactly that list |
| LDAProbsLoader.FillDocs | ETHz_HeadlineGen/src/ethz/nlp/headgen/lda/LDAProbsLoader.java:57-59 | the loop succeeds exactly when the lines fit in the array, else raises out-of-bounds at the array length; line k lands in slot index+k and other slots are unchanged |
| LDAProbsLoader.GetDocList | ETHz_HeadlineGen/src/ethz/nlp/headgen/lda/LDAProbsLoader.java:49-66 | the count-line errors are as for the vocabulary; the read succeeds exactly when there are at most as many data lines as declared, and otherwise raises out-of-bounds at the declared size; slot k holds data line k, or null past the last line |
| LDAProbsLoader.DocmapRoundTrip | ETHz_HeadlineGen/src/ethz/nlp/headgen/lda/LDAProbsLoader.java:49-66 | the document file written for a list of ids reads back as exactly that list |
| LDAProbsLoader.PutWordTopicRow | ETHz_HeadlineGen/src/ethz/nlp/headgen/lda/LDAProbsLoader.java:101-104 | a line succeeds exactly when it is no wider than the vocabulary; it adds exactly that line's keys and leaves other keys and fields alone |
| LDAProbsLoader.PutWordTopicRows | ETHz_HeadlineGen/src/ethz/nlp/headgen/lda/LDAProbsLoader.java:100-106 | the file succeeds exactly when every line fits the vocabulary; the stored keys are the old ones plus exactly the file's keys, and other keys and fields are unchanged |
| LDAProbsLoader.PutWordTopicRowCell | ETHz_HeadlineGen/src/ethz/nlp/headgen/lda/LDAProbsLoader.java:102-104 | with distinct vocabulary texts, every column of a stored line is kept under its word's key |
| LDAProbsLoader.PutWordTopicRowsCell | ETHz_HeadlineGen/src/ethz/nlp/headgen/lda/LDAProbsLoader.java:100-106 | with distinct vocabulary texts, cell (t, j) of the file is stored under word j and topic t |
| LDAProbsLoader.LoadWordTopicProbs | ETHz_HeadlineGen/src/ethz/nlp/headgen/lda/LDAProbsLoader.java:92-113 | succeeds exactly when every line fits the vocabulary, and otherwise raises out-of-bounds at the vocabulary size; numTopics becomes the line count, and only the word-topic map and the topic count change |
| LDAProbsLoader.PutTopicDocRow | ETHz_HeadlineGen/src/ethz/nlp/headgen/lda/LDAProbsLoader.java:125-128 | a line succeeds exactly when it is empty or its document slot exists; it adds exactly that line's keys, keeps other keys, and keeps probabilities non-negative |
| LDAProbsLoader.PutTopicDocRows | ETHz_HeadlineGen/src/ethz/nlp/headgen/lda/LDAProbsLoader.java:124-130 | the file succeeds exactly when every non-empty line has a document slot, and otherwise raises out-of-bounds at the number of the first non-empty line without one; the stored keys are the old ones plus exactly the file's keys; non-negative input keeps the map non-negative |
| LDAProbsLoader.PutTopicDocRowCell | ETHz_HeadlineGen/src/ethz/nlp/headgen/lda/LDAProbsLoader.java:126-128 | every column of a stored line is kept under its topic's key |
| LDAProbsLoader.PutTopicDocRowsCell | ETHz_HeadlineGen/src/ethz/nlp/headgen/lda/LDAProbsLoader.java:124-130 | with distinct document texts, cell (d, t) of the file is stored under topic t and document d |
| LDAProbsLoader.LoadTopicDocProbs | ETHz_HeadlineGen/src/ethz/nlp/headgen/lda/LDAProbsLoader.java:116-136 | succeeds exactly when every non-empty line has a document slot, and otherwise raises out-of-bounds at the first non-empty line without one; changes only the topic-document map |
| LDAProbsLoader.LoadLDAProbs | ETHz_HeadlineGen/src/ethz/nlp/headgen/lda/LDAProbsLoader.java:22-33 | the load succeeds exactly when all four reads do, and the first failing read aborts it with that read's exception: the vocabulary's or the documents' own error, then out-of-bounds at the vocabulary size for a too-wide word-topic line, then out-of-bounds at the line number of the first non-empty topic-document line without a document slot; the index keeps both arrays read, has as many topics as word-topic lines, and stores exactly the keys of the two matrix files |
| LDAProbsProperties.LoadWordTopicKeyPresent | ETHz_HeadlineGen/src/ethz/nlp/headgen/lda/LDAProbsLoader.java:165-167 | after a load, getWordTopicProb(word, topic) has a value if and only if the word-topic file has a cell for that word and topic |
| LDAProbsProperties.LoadWordTopicRoundTrip | ETHz_HeadlineGen/src/ethz/nlp/headgen/lda/LDAProbsLoader.java:165-167 | with distinct vocabulary texts, getWordTopicProb of word slot j and topic t returns cell (t, j) of the word-topic file |
| LDAProbsProperties.LoadTopicDocKeyPresent | ETHz_HeadlineGen/src/ethz/nlp/headgen/lda/LDAProbsLoader.java:170-175 | after a load, a topic-document probability is stored if and only if the topic-document file has a cell for that topic and document |
| LDAProbsProperties.LoadTopicDocAbsent | ETHz_HeadlineGen/src/ethz/nlp/headgen/lda/LDAProbsLoader.java:170-175 | getTopicDocProb is 0 for any topic and document without a cell in the file |
| LDAProbsProperties.LoadTopicDocRoundTrip | ETHz_HeadlineGen/src/ethz/nlp/headgen/lda/LDAProbsLoader.java:170-175 | with distinct document texts, getTopicDocProb of topic t and document slot d returns cell (d, t) of the topic-document file |
| LDAProbsProperties.LoadMostLikelyTopic | ETHz_HeadlineGen/src/ethz/nlp/headgen/lda/LDAProbsLoader.java:193-204 | with distinct document texts, getMostLikelyTopic of a loaded document is the position of the first maximum of its line, cut or padded with zeros to the topic count |
| LDAProbsProperties.LoadMostLikelyTopicNonNegative | ETHz_HeadlineGen/src/ethz/nlp/headgen/lda/LDAProbsLoader.java:193-204 | with non-negative probabilities and at least one topic, every document, loaded or not, gets a topic in range |
| LDAProbsProperties.TwoTopicExample | ETHz_HeadlineGen/src/ethz/nlp/headgen/lda/LDAProbsLoader.java:22-33 | a two-word, one-document, two-topic model gives P("a" given topic 0) = 0.9 and most likely topic 1 for "d1" |

## Left out

- File access, `BufferedReader`, path assembly from the configuration, and the second `loadLDAProbs` overload (LDAProbsLoader.java:35-47). The overload differs only in which directories and file names it opens. An `IOException` is not modelled.
- `main` (LDAProbsLoader.java:207-240) and the configuration classes. They are drivers that print results.
- `Double.parseDouble`: matrix lines arrive as reals. So a token that is not a number, NaN and infinities are not modelled, and neither is the `NumberFormatException` that an empty line's single empty field would raise.
- `Integer.parseInt` accepts only ASCII digits here. Java also accepts other Unicode decimal digits.
- The concurrent radix trees are exact-key maps here. The code uses only `put` and `getValueForExactKey`, and concurrency is out of scope.
- The line counters `topic`, `doc` and `index` are unbounded here. In Java they are `int` and would wrap after 2^31 lines.
- `getWordList` and `getDocList` of the index are plain field reads, the `wordList` and `docList` fields of `ProbIndex`. `getNumTopics` is the `numTopics` field, fixed by `LoadWordTopicProbs`.
- NgramCleaned.java is not part of this model. It wraps code that is not available.
- LDAProbsImpl.GetWordTopicProb: requires its key to be present, and so does not model the null unboxing that throws on an absent key. `LDAProbsProperties.LoadWordTopicKeyPresent` says exactly when the key is present after a load.
- LDAProbsProperties.LoadWordTopicRoundTrip: assumes distinct vocabulary texts. With duplicates, the later column of a line overwrites the earlier one under the shared key, and this lemma says nothing about that case.
- LDAProbsProperties.LoadTopicDocRoundTrip: assumes distinct document texts, for the same reason.
