/** The documentation search: a term index over text chunks, ranked retrieval, and the cache of the built index. */
module DocsSearch {
  import opened Results
  import opened Sequences

  datatype Source = Docs | Skill

  datatype Chunk = Chunk(id: string, slug: string, title: string, heading: string, text: string, source: Source)

  /**
   What the search takes as given: the static corpus, the tokenizer, the splitting of the skill document, and the two
   library functions of the score.
   */
  datatype Setting = Setting(
    corpus: seq<Chunk>,
    tokenize: string -> seq<string>,
    chunkSkill: string -> seq<Chunk>,
    log: real -> real,
    sqrt: real -> real)

  ghost predicate Sensible(e: Setting) {
    (forall x :: x >= 1.0 ==> e.log(x) >= 0.0) && (forall x :: x > 0.0 ==> e.sqrt(x) > 0.0)
  }

  /** A map from terms to counts together with the order in which it lists its terms. */
  datatype Frequencies = Frequencies(terms: seq<string>, counts: map<string, nat>)

  datatype IndexedChunk = IndexedChunk(chunk: Chunk, termFreq: Frequencies, length: nat)

  datatype Index = Index(chunks: seq<IndexedChunk>, docFreq: map<string, nat>, totalChunks: nat, builtAt: int)

  datatype Found = Found(chunk: Chunk, score: real)

  // What an index should hold.

  function CountsIn(m: multiset<string>): map<string, nat> {
    map t | t in m :: m[t]
  }

  /** Every token with its exact number of occurrences. */
  function TermFreq(tokens: seq<string>): Frequencies {
    Frequencies(Unique(tokens), CountsIn(multiset(tokens)))
  }

  function TextOf(c: Chunk): string {
    c.title + " " + c.heading + " " + c.text
  }

  function Indexed(e: Setting, c: Chunk): IndexedChunk {
    var tokens := e.tokenize(TextOf(c));
    IndexedChunk(c, TermFreq(tokens), if tokens == [] then 1 else |tokens|)
  }

  function AllChunks(e: Setting, skill: Option<string>): seq<Chunk> {
    e.corpus + if skill.Some? && skill.value != "" then e.chunkSkill(skill.value) else []
  }

  function IndexedAll(e: Setting, chunks: seq<Chunk>): (r: seq<IndexedChunk>)
    ensures |r| == |chunks| && forall i :: 0 <= i < |r| ==> r[i] == Indexed(e, chunks[i])
  {
    seq(|chunks|, i requires 0 <= i < |chunks| => Indexed(e, chunks[i]))
  }

  /** The positions of the chunks that contain the term. */
  function Containing(chunks: seq<IndexedChunk>, t: string): set<nat> {
    set i: nat | i < |chunks| && t in chunks[i].termFreq.terms
  }

  function Terms(chunks: seq<IndexedChunk>): set<string> {
    set i: nat, t | i < |chunks| && t in chunks[i].termFreq.terms :: t
  }

  function DocFreq(chunks: seq<IndexedChunk>): map<string, nat> {
    map t | t in Terms(chunks) :: |Containing(chunks, t)|
  }

  function Fresh(e: Setting, skill: Option<string>, now: int): Index {
    var chunks := IndexedAll(e, AllChunks(e, skill));
    Index(chunks, DocFreq(chunks), |chunks|, now)
  }

  // Building an index.

  function Count(m: map<string, nat>, t: string): nat {
    if t in m then m[t] else 0
  }

  lemma TermFreqOneMore(tokens: seq<string>, t: string)
    ensures TermFreq(tokens + [t]).terms == TermFreq(tokens).terms + if t in tokens then [] else [t]
    ensures TermFreq(tokens + [t]).counts
            == TermFreq(tokens).counts[t := Count(TermFreq(tokens).counts, t) + 1]
  {
    assert (tokens + [t])[..|tokens|] == tokens;
    UniqueKeepsValues(tokens);
    assert multiset(tokens + [t]) == multiset(tokens) + multiset{t};
    CountsOneMore(multiset(tokens), t);
  }

  lemma CountsOneMore(m: multiset<string>, t: string)
    ensures CountsIn(m + multiset{t}) == CountsIn(m)[t := Count(CountsIn(m), t) + 1]
  {
  }

  /** `buildTermFreq`: one pass, one increment per token. */
  method BuildTermFreq(tokens: seq<string>) returns (tf: Frequencies)
    ensures tf == TermFreq(tokens)
  {
    tf := Frequencies([], map[]);
    for i := 0 to |tokens|
      invariant tf == TermFreq(tokens[..i])
    {
      var tok := tokens[i];
      assert tokens[..i + 1] == tokens[..i] + [tok];
      TermFreqOneMore(tokens[..i], tok);
      var terms := if tok in tf.counts then tf.terms else tf.terms + [tok];
      tf := Frequencies(terms, tf.counts[tok := Count(tf.counts, tok) + 1]);
    }
    assert tokens[..|tokens|] == tokens;
  }

  lemma ContainingOneMore(chunks: seq<IndexedChunk>, c: IndexedChunk, t: string)
    ensures |Containing(chunks + [c], t)| == |Containing(chunks, t)| + if t in c.termFreq.terms then 1 else 0
  {
    var n: nat := |chunks|;
    if t in c.termFreq.terms {
      assert Containing(chunks + [c], t) == Containing(chunks, t) + {n};
    } else {
      assert Containing(chunks + [c], t) == Containing(chunks, t);
    }
  }

  /** A term is counted exactly when some chunk contains it. */
  lemma CountedExactlyWhenContained(chunks: seq<IndexedChunk>, t: string)
    ensures t in Terms(chunks) <==> |Containing(chunks, t)| > 0
  {
    if t in Terms(chunks) {
      var i: nat :| i < |chunks| && t in chunks[i].termFreq.terms;
      assert i in Containing(chunks, t);
    }
    if |Containing(chunks, t)| > 0 {
      var i :| i in Containing(chunks, t);
    }
  }

  /** The counting loop of `buildIndex`: one increment per chunk and distinct term. */
  method CountDocuments(chunks: seq<IndexedChunk>) returns (docFreq: map<string, nat>)
    requires forall c :: c in chunks ==> Distinct(c.termFreq.terms)
    ensures docFreq == DocFreq(chunks)
  {
    docFreq := map[];
    for i := 0 to |chunks|
      invariant forall t :: Count(docFreq, t) == |Containing(chunks[..i], t)|
      invariant forall t :: t in docFreq ==> docFreq[t] > 0
    {
      var terms := chunks[i].termFreq.terms;
      ghost var before := docFreq;
      assert chunks[i] in chunks;
      for j := 0 to |terms|
        invariant forall t :: Count(docFreq, t) == Count(before, t) + if t in terms[..j] then 1 else 0
        invariant forall t :: t in docFreq ==> docFreq[t] > 0
      {
        assert terms[j] !in terms[..j];
        assert terms[..j + 1] == terms[..j] + [terms[j]];
        docFreq := docFreq[terms[j] := Count(docFreq, terms[j]) + 1];
      }
      assert terms[..|terms|] == terms;
      assert chunks[..i + 1] == chunks[..i] + [chunks[i]];
      forall t
        ensures Count(docFreq, t) == |Containing(chunks[..i + 1], t)|
      {
        ContainingOneMore(chunks[..i], chunks[i], t);
      }
    }
    assert chunks[..|chunks|] == chunks;
    forall t
      ensures t in docFreq <==> t in Terms(chunks)
    {
      CountedExactlyWhenContained(chunks, t);
      assert Count(docFreq, t) == |Containing(chunks, t)|;
    }
    forall t | t in docFreq
      ensures docFreq[t] == DocFreq(chunks)[t]
    {
      assert Count(docFreq, t) == |Containing(chunks, t)|;
    }
  }

  method BuildIndex(e: Setting, skill: Option<string>, now: int) returns (index: Index)
    ensures index == Fresh(e, skill, now)
  {
    var all := AllChunks(e, skill);
    var chunks: seq<IndexedChunk> := [];
    for i := 0 to |all|
      invariant |chunks| == i && forall k :: 0 <= k < i ==> chunks[k] == Indexed(e, all[k])
    {
      var tokens := e.tokenize(TextOf(all[i]));
      var termFreq := BuildTermFreq(tokens);
      chunks := chunks + [IndexedChunk(all[i], termFreq, if |tokens| == 0 then 1 else |tokens|)];
    }
    assert chunks == IndexedAll(e, all);
    TermsAreDistinct(e, all);
    var docFreq := CountDocuments(chunks);
    index := Index(chunks, docFreq, |chunks|, now);
  }

  lemma TermsAreDistinct(e: Setting, chunks: seq<Chunk>)
    ensures forall c :: c in IndexedAll(e, chunks) ==> Distinct(c.termFreq.terms)
  {
    forall c | c in IndexedAll(e, chunks)
      ensures Distinct(c.termFreq.terms)
    {
      var i :| 0 <= i < |chunks| && c == Indexed(e, chunks[i]);
      UniqueKeepsValues(e.tokenize(TextOf(chunks[i])));
    }
  }

  // Scoring.

  function Idf(e: Setting, index: Index, t: string): real {
    var df := Count(index.docFreq, t);
    if df == 0 then 0.0 else e.log(index.totalChunks as real / df as real) + 1.0
  }

  function Contribution(e: Setting, index: Index, c: IndexedChunk, t: string, qCount: nat): real {
    var chunkCount := Count(c.termFreq.counts, t);
    var weight := Idf(e, index, t);
    if chunkCount == 0 then 0.0 else (qCount as real * weight) * (chunkCount as real * weight)
  }

  /** The loop over the query's distinct terms. */
  function Score(e: Setting, index: Index, c: IndexedChunk, terms: seq<string>, counts: map<string, nat>): real {
    if terms == [] then 0.0
    else
      var n := |terms| - 1;
      Score(e, index, c, terms[..n], counts) + Contribution(e, index, c, terms[n], Count(counts, terms[n]))
  }

  /** The same relevance, one query token at a time: no grouping of repeated words. */
  function Relevance(e: Setting, index: Index, c: IndexedChunk, tokens: seq<string>): real {
    if tokens == [] then 0.0
    else
      var n := |tokens| - 1;
      Relevance(e, index, c, tokens[..n]) + Contribution(e, index, c, tokens[n], 1)
  }

  lemma OneMoreOccurrence(e: Setting, index: Index, c: IndexedChunk, t: string, k: nat)
    ensures Contribution(e, index, c, t, k + 1) == Contribution(e, index, c, t, k) + Contribution(e, index, c, t, 1)
  {
    var w := Idf(e, index, t);
    var z := Count(c.termFreq.counts, t) as real * w;
    DistributeTwice(k as real, w, z);
  }

  lemma DistributeTwice(k: real, w: real, z: real)
    ensures ((k + 1.0) * w) * z == (k * w) * z + (1.0 * w) * z
  {
    assert (k + 1.0) * w == k * w + 1.0 * w;
  }

  /** Counting one more occurrence of a listed term adds that occurrence's contribution, and touches no other term. */
  lemma {:induction false} ScoreOfOneMore(e: Setting, index: Index, c: IndexedChunk, terms: seq<string>,
                                          before: map<string, nat>, after: map<string, nat>, t: string)
    requires Distinct(terms)
    requires Count(after, t) == Count(before, t) + 1 && forall u :: u != t ==> Count(after, u) == Count(before, u)
    ensures Score(e, index, c, terms, after)
            == Score(e, index, c, terms, before) + if t in terms then Contribution(e, index, c, t, 1) else 0.0
  {
    if terms != [] {
      var n := |terms| - 1;
      assert terms == terms[..n] + [terms[n]];
      ScoreOfOneMore(e, index, c, terms[..n], before, after, t);
      if terms[n] == t {
        OneMoreOccurrence(e, index, c, t, Count(before, t));
      }
    }
  }

  lemma {:induction false} ScoreOfOneMoreToken(
    e: Setting, index: Index, c: IndexedChunk, before: Frequencies, after: Frequencies, t: string)
    requires Distinct(before.terms) && (t in before.terms <==> Count(before.counts, t) > 0)
    requires after.counts == before.counts[t := Count(before.counts, t) + 1]
    requires after.terms == before.terms + if t in before.terms then [] else [t]
    ensures Score(e, index, c, after.terms, after.counts)
            == Score(e, index, c, before.terms, before.counts) + Contribution(e, index, c, t, 1)
  {
    ScoreOfOneMore(e, index, c, before.terms, before.counts, after.counts, t);
    if t !in before.terms {
      ScoreOfNewTerm(e, index, c, before.terms, after.counts, t);
    } else {
      assert after.terms == before.terms;
    }
  }

  lemma {:induction false} ScoreOfNewTerm(
    e: Setting, index: Index, c: IndexedChunk, terms: seq<string>, counts: map<string, nat>, t: string)
    requires Count(counts, t) == 1
    ensures Score(e, index, c, terms + [t], counts)
            == Score(e, index, c, terms, counts) + Contribution(e, index, c, t, 1)
  {
    assert (terms + [t])[..|terms|] == terms;
  }

  lemma {:induction false} GroupingOneMore(e: Setting, index: Index, c: IndexedChunk, front: seq<string>, t: string)
    ensures Score(e, index, c, TermFreq(front + [t]).terms, TermFreq(front + [t]).counts)
            == Score(e, index, c, TermFreq(front).terms, TermFreq(front).counts) + Contribution(e, index, c, t, 1)
  {
    TermFreqOneMore(front, t);
    UniqueKeepsValues(front);
    ScoreOfOneMoreToken(e, index, c, TermFreq(front), TermFreq(front + [t]), t);
  }

  lemma {:induction false} RelevanceOneMore(e: Setting, index: Index, c: IndexedChunk, front: seq<string>, t: string)
    ensures Relevance(e, index, c, front + [t]) == Relevance(e, index, c, front) + Contribution(e, index, c, t, 1)
  {
    assert (front + [t])[..|front|] == front;
  }

  /** Summing over distinct terms with their counts is summing over every token of the query. */
  lemma {:induction false} ScoreCountsEveryToken(e: Setting, index: Index, c: IndexedChunk, tokens: seq<string>)
    ensures Score(e, index, c, TermFreq(tokens).terms, TermFreq(tokens).counts) == Relevance(e, index, c, tokens)
    decreases |tokens|
  {
    if tokens != [] {
      var front, t := tokens[..|tokens| - 1], tokens[|tokens| - 1];
      assert tokens == front + [t];
      ScoreCountsEveryToken(e, index, c, front);
      GroupingOneMore(e, index, c, front, t);
      RelevanceOneMore(e, index, c, front, t);
    }
  }

  predicate Shares(c: IndexedChunk, tokens: seq<string>) {
    exists t :: t in tokens && Count(c.termFreq.counts, t) > 0
  }

  /** The index knows every term of its chunks, and no term is in more chunks than there are. */
  ghost predicate Consistent(index: Index) {
    && (forall c, t :: c in index.chunks && t in c.termFreq.counts ==> Count(index.docFreq, t) > 0)
    && forall t :: Count(index.docFreq, t) <= index.totalChunks
  }

  lemma ContributionSign(e: Setting, index: Index, c: IndexedChunk, t: string)
    requires Sensible(e) && Consistent(index) && c in index.chunks
    ensures Contribution(e, index, c, t, 1) >= 0.0
    ensures Contribution(e, index, c, t, 1) > 0.0 <==> Count(c.termFreq.counts, t) > 0
  {
    if Count(c.termFreq.counts, t) > 0 {
      var df, total := Count(index.docFreq, t) as real, index.totalChunks as real;
      assert 0.0 < df <= total;
      QuotientAtLeastOne(total, df);
      PositiveProduct(Count(c.termFreq.counts, t) as real, Idf(e, index, t));
    }
  }

  lemma QuotientAtLeastOne(a: real, b: real)
    requires 0.0 < b <= a
    ensures a / b >= 1.0
  {
    assert a / b * b == a;
  }

  lemma PositiveProduct(n: real, w: real)
    requires n > 0.0 && w > 0.0
    ensures (1.0 * w) * (n * w) > 0.0
  {
  }

  /** A chunk scores exactly when it shares a token with the query. */
  lemma {:induction false} ScoresExactlyWhenShared(e: Setting, index: Index, c: IndexedChunk, tokens: seq<string>)
    requires Sensible(e) && Consistent(index) && c in index.chunks
    ensures Relevance(e, index, c, tokens) >= 0.0
    ensures Relevance(e, index, c, tokens) > 0.0 <==> Shares(c, tokens)
  {
    if tokens != [] {
      var n := |tokens| - 1;
      assert tokens == tokens[..n] + [tokens[n]];
      ScoresExactlyWhenShared(e, index, c, tokens[..n]);
      ContributionSign(e, index, c, tokens[n]);
    }
  }

  lemma IndexedTerms(e: Setting, c: Chunk, t: string)
    ensures t in Indexed(e, c).termFreq.terms <==> t in Indexed(e, c).termFreq.counts
  {
    UniqueKeepsValues(e.tokenize(TextOf(c)));
  }

  lemma FreshIsConsistent(e: Setting, skill: Option<string>, now: int)
    ensures Consistent(Fresh(e, skill, now))
  {
    var index := Fresh(e, skill, now);
    forall c, t | c in index.chunks && t in c.termFreq.counts
      ensures Count(index.docFreq, t) > 0
    {
      var i: nat :| i < |index.chunks| && index.chunks[i] == c;
      IndexedTerms(e, c.chunk, t);
      assert c == Indexed(e, c.chunk);
      assert t in c.termFreq.terms;
      assert t in Terms(index.chunks);
      CountedExactlyWhenContained(index.chunks, t);
    }
    forall t
      ensures Count(index.docFreq, t) <= index.totalChunks
    {
      AtMostAll(Containing(index.chunks, t), index.totalChunks);
    }
  }

  lemma {:induction false} AtMostAll(s: set<nat>, n: nat)
    requires forall i :: i in s ==> i < n
    ensures |s| <= n
    decreases n
  {
    if n > 0 {
      AtMostAll(s - {n - 1}, n - 1);
      assert s <= (s - {n - 1}) + {n - 1};
    } else {
      assert s == {};
    }
  }

  // Ranking.

  /** The chunks that score, in index order. */
  function Hits(e: Setting, index: Index, chunks: seq<IndexedChunk>, query: Frequencies): seq<Found> {
    if chunks == [] then []
    else
      var n := |chunks| - 1;
      var score := Score(e, index, chunks[n], query.terms, query.counts);
      var root := e.sqrt(chunks[n].length as real);
      Hits(e, index, chunks[..n], query)
      + if score > 0.0 then [Found(chunks[n].chunk, if root == 0.0 then 0.0 else score / root)] else []
  }

  predicate Descending(s: seq<Found>) {
    forall i, j :: 0 <= i < j < |s| ==> s[i].score >= s[j].score
  }

  function Insert(ranked: seq<Found>, f: Found): seq<Found> {
    if ranked == [] || ranked[|ranked| - 1].score >= f.score then ranked + [f]
    else Insert(ranked[..|ranked| - 1], f) + [ranked[|ranked| - 1]]
  }

  /** The results sorted by descending score, ties in their original order. */
  function Ranked(results: seq<Found>): seq<Found> {
    if results == [] then []
    else Insert(Ranked(results[..|results| - 1]), results[|results| - 1])
  }

  function WithScore(s: seq<Found>, x: real): seq<Found> {
    if s == [] then []
    else WithScore(s[..|s| - 1], x) + if s[|s| - 1].score == x then [s[|s| - 1]] else []
  }

  lemma {:induction false} WithScoreAppend(s: seq<Found>, f: Found, x: real)
    ensures WithScore(s + [f], x) == WithScore(s, x) + if f.score == x then [f] else []
  {
    assert (s + [f])[..|s|] == s;
  }

  lemma {:induction false} InsertPermutes(ranked: seq<Found>, f: Found)
    ensures multiset(Insert(ranked, f)) == multiset(ranked) + multiset{f}
  {
    if ranked != [] && ranked[|ranked| - 1].score < f.score {
      var n := |ranked| - 1;
      assert ranked == ranked[..n] + [ranked[n]];
      InsertPermutes(ranked[..n], f);
    }
  }

  lemma {:induction false} InsertAtLeast(ranked: seq<Found>, f: Found, x: real)
    requires f.score >= x && forall i :: 0 <= i < |ranked| ==> ranked[i].score >= x
    ensures forall i :: 0 <= i < |Insert(ranked, f)| ==> Insert(ranked, f)[i].score >= x
  {
    if ranked != [] && ranked[|ranked| - 1].score < f.score {
      InsertAtLeast(ranked[..|ranked| - 1], f, x);
    }
  }

  lemma {:induction false} InsertKeepsOrder(ranked: seq<Found>, f: Found)
    requires Descending(ranked)
    ensures Descending(Insert(ranked, f))
  {
    if ranked != [] && ranked[|ranked| - 1].score < f.score {
      var n := |ranked| - 1;
      InsertKeepsOrder(ranked[..n], f);
      InsertAtLeast(ranked[..n], f, ranked[n].score);
    }
  }

  lemma {:induction false} InsertIsStable(ranked: seq<Found>, f: Found, x: real)
    ensures WithScore(Insert(ranked, f), x) == WithScore(ranked, x) + if f.score == x then [f] else []
  {
    if ranked == [] || ranked[|ranked| - 1].score >= f.score {
      WithScoreAppend(ranked, f, x);
    } else {
      var front, last := ranked[..|ranked| - 1], ranked[|ranked| - 1];
      InsertIsStable(front, f, x);
      WithScoreAppend(Insert(front, f), last, x);
    }
  }

  /** Sorted, complete, and stable. */
  lemma {:induction false} RankedSorts(results: seq<Found>)
    ensures Descending(Ranked(results)) && multiset(Ranked(results)) == multiset(results)
    ensures forall x :: WithScore(Ranked(results), x) == WithScore(results, x)
  {
    if results != [] {
      var n := |results| - 1;
      var front, last := results[..n], results[n];
      assert results == front + [last];
      RankedSorts(front);
      InsertKeepsOrder(Ranked(front), last);
      InsertPermutes(Ranked(front), last);
      forall x
        ensures WithScore(Ranked(results), x) == WithScore(results, x)
      {
        InsertIsStable(Ranked(front), last, x);
      }
    }
  }

  /** `slice(0, limit)`: a negative limit counts from the end. */
  function Kept(limit: int, n: nat): (k: nat)
    ensures k <= n
  {
    if limit < 0 then (if n + limit < 0 then 0 else n + limit) else if limit < n then limit else n
  }

  /** What a search returns, a function of the query, the limit and the skill text alone. */
  function Answer(e: Setting, query: string, limit: int, skill: Option<string>): seq<Found> {
    var index := Fresh(e, skill, 0);
    var ranked := Ranked(Hits(e, index, index.chunks, TermFreq(e.tokenize(query))));
    ranked[..Kept(limit, |ranked|)]
  }

  // The answer from the texts alone.

  /** The chunks whose tokens meet the query's, in index order. */
  function Matching(e: Setting, chunks: seq<Chunk>, tokens: seq<string>): seq<Chunk> {
    if chunks == [] then []
    else
      var n := |chunks| - 1;
      Matching(e, chunks[..n], tokens)
      + if exists t :: t in tokens && t in e.tokenize(TextOf(chunks[n])) then [chunks[n]] else []
  }

  function Mentioning(e: Setting, all: seq<Chunk>, t: string): set<nat> {
    set i: nat | i < |all| && t in e.tokenize(TextOf(all[i]))
  }

  /** The inverse document frequency of a term among the texts. */
  function Rarity(e: Setting, all: seq<Chunk>, t: string): real {
    var n := |Mentioning(e, all, t)|;
    if n == 0 then 0.0 else e.log(|all| as real / n as real) + 1.0
  }

  /** A query token counts as often as the text has it, by the square of its rarity. */
  function TokenWeight(e: Setting, all: seq<Chunk>, own: seq<string>, t: string): real {
    multiset(own)[t] as real * Square(Rarity(e, all, t))
  }

  function Square(r: real): real {
    r * r
  }

  function Weight(e: Setting, all: seq<Chunk>, own: seq<string>, tokens: seq<string>): real {
    if tokens == [] then 0.0
    else Weight(e, all, own, tokens[..|tokens| - 1]) + TokenWeight(e, all, own, tokens[|tokens| - 1])
  }

  /** Its weight over the square root of its length. */
  function TextScore(e: Setting, all: seq<Chunk>, c: Chunk, tokens: seq<string>): real {
    var own := e.tokenize(TextOf(c));
    var root := e.sqrt(if own == [] then 1.0 else |own| as real);
    if root == 0.0 then 0.0 else Weight(e, all, own, tokens) / root
  }

  function Scored(e: Setting, all: seq<Chunk>, chunks: seq<Chunk>, tokens: seq<string>): (r: seq<Found>)
    ensures |r| == |chunks|
  {
    seq(|chunks|, i requires 0 <= i < |chunks| => Found(chunks[i], TextScore(e, all, chunks[i], tokens)))
  }

  lemma IdfIsRarity(e: Setting, skill: Option<string>, t: string)
    ensures Idf(e, Fresh(e, skill, 0), t) == Rarity(e, AllChunks(e, skill), t)
  {
    var all := AllChunks(e, skill);
    var chunks := IndexedAll(e, all);
    forall i: nat | i < |all|
      ensures t in chunks[i].termFreq.terms <==> t in e.tokenize(TextOf(all[i]))
    {
      UniqueKeepsValues(e.tokenize(TextOf(all[i])));
    }
    assert Containing(chunks, t) == Mentioning(e, all, t);
    CountedExactlyWhenContained(chunks, t);
  }

  lemma SquareOut(k: real, w: real)
    ensures (1.0 * w) * (k * w) == k * (w * w)
  {
  }

  lemma CountIsMultiplicity(e: Setting, c: Chunk, t: string)
    ensures Count(Indexed(e, c).termFreq.counts, t) == multiset(e.tokenize(TextOf(c)))[t]
  {
  }

  lemma OneTokenWeighs(e: Setting, index: Index, c: IndexedChunk, all: seq<Chunk>, own: seq<string>, t: string)
    requires Count(c.termFreq.counts, t) == multiset(own)[t] && Idf(e, index, t) == Rarity(e, all, t)
    ensures Contribution(e, index, c, t, 1) == TokenWeight(e, all, own, t)
  {
    SquareOut(multiset(own)[t] as real, Rarity(e, all, t));
  }

  lemma ContributionIsTokenWeight(e: Setting, skill: Option<string>, c: Chunk, t: string)
    ensures Contribution(e, Fresh(e, skill, 0), Indexed(e, c), t, 1)
            == TokenWeight(e, AllChunks(e, skill), e.tokenize(TextOf(c)), t)
  {
    IdfIsRarity(e, skill, t);
    CountIsMultiplicity(e, c, t);
    OneTokenWeighs(e, Fresh(e, skill, 0), Indexed(e, c), AllChunks(e, skill), e.tokenize(TextOf(c)), t);
  }

  lemma {:induction false} RelevanceIsWeight(e: Setting, skill: Option<string>, c: Chunk, tokens: seq<string>)
    ensures Relevance(e, Fresh(e, skill, 0), Indexed(e, c), tokens)
            == Weight(e, AllChunks(e, skill), e.tokenize(TextOf(c)), tokens)
  {
    if tokens != [] {
      RelevanceIsWeight(e, skill, c, tokens[..|tokens| - 1]);
      ContributionIsTokenWeight(e, skill, c, tokens[|tokens| - 1]);
    }
  }

  lemma SharesExactlyWhenTokensMeet(e: Setting, c: Chunk, tokens: seq<string>)
    ensures Shares(Indexed(e, c), tokens) <==> exists t :: t in tokens && t in e.tokenize(TextOf(c))
  {
    var own := e.tokenize(TextOf(c));
    forall t
      ensures Count(TermFreq(own).counts, t) > 0 <==> t in own
    {
    }
  }

  lemma ScoredOneMore(e: Setting, all: seq<Chunk>, chunks: seq<Chunk>, c: Chunk, tokens: seq<string>)
    ensures Scored(e, all, chunks + [c], tokens)
            == Scored(e, all, chunks, tokens) + [Found(c, TextScore(e, all, c, tokens))]
  {
  }

  lemma {:induction false} HitIsScored(e: Setting, skill: Option<string>, c: Chunk, tokens: seq<string>)
    requires Sensible(e) && Indexed(e, c) in Fresh(e, skill, 0).chunks
    ensures var index, query, all := Fresh(e, skill, 0), TermFreq(tokens), AllChunks(e, skill);
            Hits(e, index, [Indexed(e, c)], query) ==
            if exists t :: t in tokens && t in e.tokenize(TextOf(c))
            then [Found(c, TextScore(e, all, c, tokens))] else []
  {
    var index, own := Fresh(e, skill, 0), Indexed(e, c);
    FreshIsConsistent(e, skill, 0);
    ScoreCountsEveryToken(e, index, own, tokens);
    ScoresExactlyWhenShared(e, index, own, tokens);
    SharesExactlyWhenTokensMeet(e, c, tokens);
    RelevanceIsWeight(e, skill, c, tokens);
    assert [own][..0] == [];
    assert Hits(e, index, [], TermFreq(tokens)) == [];
  }

  lemma {:induction false} HitsOneMore(
    e: Setting, index: Index, chunks: seq<IndexedChunk>, c: IndexedChunk, query: Frequencies)
    ensures Hits(e, index, chunks + [c], query) == Hits(e, index, chunks, query) + Hits(e, index, [c], query)
  {
    assert (chunks + [c])[..|chunks|] == chunks && [c][..0] == [];
    assert Hits(e, index, [], query) == [];
  }

  lemma {:induction false} HitsAreTheMatchingChunks(
    e: Setting, skill: Option<string>, chunks: seq<Chunk>, tokens: seq<string>)
    requires Sensible(e) && forall c :: c in chunks ==> Indexed(e, c) in Fresh(e, skill, 0).chunks
    ensures Hits(e, Fresh(e, skill, 0), IndexedAll(e, chunks), TermFreq(tokens))
            == Scored(e, AllChunks(e, skill), Matching(e, chunks, tokens), tokens)
  {
    if chunks != [] {
      var n := |chunks| - 1;
      assert chunks[n] in chunks;
      assert IndexedAll(e, chunks) == IndexedAll(e, chunks[..n]) + [Indexed(e, chunks[n])];
      HitsAreTheMatchingChunks(e, skill, chunks[..n], tokens);
      HitsOneMore(e, Fresh(e, skill, 0), IndexedAll(e, chunks[..n]), Indexed(e, chunks[n]), TermFreq(tokens));
      HitIsScored(e, skill, chunks[n], tokens);
      ScoredOneMore(e, AllChunks(e, skill), Matching(e, chunks[..n], tokens), chunks[n], tokens);
    }
  }

  /**
   Before the limit, a search finds exactly the chunks that share a token with the query, each once, at the score that
   the texts themselves give it.
   */
  lemma {:induction false} SearchFindsExactlyTheMatches(e: Setting, query: string, skill: Option<string>)
    requires Sensible(e)
    ensures var all, tokens, index := AllChunks(e, skill), e.tokenize(query), Fresh(e, skill, 0);
            Hits(e, index, index.chunks, TermFreq(tokens)) == Scored(e, all, Matching(e, all, tokens), tokens)
  {
    var all := AllChunks(e, skill);
    forall c | c in all
      ensures Indexed(e, c) in IndexedAll(e, all)
    {
      var i :| 0 <= i < |all| && all[i] == c;
      assert IndexedAll(e, all)[i] == Indexed(e, c);
    }
    HitsAreTheMatchingChunks(e, skill, all, e.tokenize(query));
  }

  lemma HigherFirst(a: seq<Found>, b: seq<Found>)
    requires Descending(a + b)
    ensures forall f, g :: f in a && g in b ==> f.score >= g.score
  {
    forall f, g | f in a && g in b
      ensures f.score >= g.score
    {
      var i :| 0 <= i < |a| && a[i] == f;
      var j :| 0 <= j < |b| && b[j] == g;
      assert (a + b)[i] == f && (a + b)[|a| + j] == g;
    }
  }

  /** `answer` is a top part of `matches`, in order and stable, and `rest` is what it leaves out, nothing better. */
  ghost predicate TopOf(answer: seq<Found>, rest: seq<Found>, matches: seq<Found>) {
    && multiset(answer + rest) == multiset(matches)
    && Descending(answer + rest)
    && (forall x :: WithScore(answer + rest, x) == WithScore(matches, x))
    && forall f, g :: f in answer && g in rest ==> f.score >= g.score
  }

  lemma {:induction false} RankingSplits(matches: seq<Found>, k: nat)
    requires k <= |matches|
    ensures |Ranked(matches)| == |matches| && TopOf(Ranked(matches)[..k], Ranked(matches)[k..], matches)
  {
    RankedSorts(matches);
    assert |Ranked(matches)| == |multiset(Ranked(matches))|;
    assert Ranked(matches)[..k] + Ranked(matches)[k..] == Ranked(matches);
    HigherFirst(Ranked(matches)[..k], Ranked(matches)[k..]);
  }

  /**
   The answer is the top of the ranking: as many matching chunks as the limit asks for and there are, or that number
   less the magnitude of a negative limit. With those left out, `rest`, it is all of them in descending order, ties in
   index order, so none left out scores higher than one returned.
   */
  lemma {:induction false} AnswerIsTheTop(e: Setting, query: string, limit: int, skill: Option<string>)
    returns (rest: seq<Found>)
    requires Sensible(e)
    ensures var all, tokens := AllChunks(e, skill), e.tokenize(query);
            var answer, n := Answer(e, query, limit, skill), |Matching(e, all, tokens)|;
            && (limit >= 0 ==> |answer| == if limit <= n then limit else n)
            && (limit < 0 ==> |answer| == if n + limit >= 0 then n + limit else 0)
            && TopOf(answer, rest, Scored(e, all, Matching(e, all, tokens), tokens))
  {
    SearchFindsExactlyTheMatches(e, query, skill);
    var tokens := e.tokenize(query);
    var matches := Scored(e, AllChunks(e, skill), Matching(e, AllChunks(e, skill), tokens), tokens);
    var k := |Answer(e, query, limit, skill)|;
    RankingSplits(matches, 0);
    RankingSplits(matches, k);
    rest := Ranked(matches)[k..];
  }

  /** An empty skill document is searched like none. */
  lemma EmptySkillIsNone(e: Setting, query: string, limit: int)
    ensures Answer(e, query, limit, Some("")) == Answer(e, query, limit, None)
  {
    assert AllChunks(e, Some("")) == AllChunks(e, None);
  }

  // The module with its cached index.

  /** Two builds of one text, whenever they were made. */
  predicate SameIndex(a: Index, b: Index) {
    a.(builtAt := b.builtAt) == b
  }

  lemma {:induction false} HitsIgnoreBuildTime(
    e: Setting, a: Index, b: Index, chunks: seq<IndexedChunk>, query: Frequencies)
    requires SameIndex(a, b)
    ensures Hits(e, a, chunks, query) == Hits(e, b, chunks, query)
  {
    if chunks != [] {
      HitsIgnoreBuildTime(e, a, b, chunks[..|chunks| - 1], query);
      ScoreIgnoresBuildTime(e, a, b, chunks[|chunks| - 1], query.terms, query.counts);
    }
  }

  lemma {:induction false} ScoreIgnoresBuildTime(e: Setting, a: Index, b: Index, c: IndexedChunk, terms: seq<string>,
                                                 counts: map<string, nat>)
    requires SameIndex(a, b)
    ensures Score(e, a, c, terms, counts) == Score(e, b, c, terms, counts)
  {
    if terms != [] {
      ScoreIgnoresBuildTime(e, a, b, c, terms[..|terms| - 1], counts);
    }
  }

  class DocsIndexCache {
    const e: Setting
    var cachedIndex: Option<Index>
    var cachedSkillText: Option<string>

    /** The cached index is a build of the cached text. */
    ghost predicate Valid()
      reads this
    {
      cachedIndex.Some? ==> SameIndex(cachedIndex.value, Fresh(e, cachedSkillText, 0))
    }

    constructor (e: Setting)
      ensures Valid() && this.e == e && cachedIndex == None
    {
      this.e := e;
      cachedIndex, cachedSkillText := None, None;
    }

    /** The index of the asked text: built anew exactly when none is cached or the text has changed. */
    method GetIndex(skill: Option<string>, now: int) returns (index: Index)
      requires Valid()
      modifies this
      ensures Valid()
      ensures SameIndex(index, Fresh(e, skill, 0))
      ensures cachedIndex == Some(index) && cachedSkillText == skill
      ensures index.builtAt
              == if old(cachedIndex.Some? && cachedSkillText == skill) then old(cachedIndex.value.builtAt) else now
    {
      if cachedIndex.Some? && cachedSkillText == skill {
        return cachedIndex.value;
      }
      index := BuildIndex(e, skill, now);
      cachedIndex := Some(index);
      cachedSkillText := skill;
    }

    method ScoreChunk(index: Index, c: IndexedChunk, query: Frequencies) returns (score: real)
      ensures score == Score(e, index, c, query.terms, query.counts)
    {
      score := 0.0;
      for i := 0 to |query.terms|
        invariant score == Score(e, index, c, query.terms[..i], query.counts)
      {
        var term := query.terms[i];
        assert query.terms[..i + 1][..i] == query.terms[..i];
        var chunkCount := Count(c.termFreq.counts, term);
        if chunkCount == 0 {
          continue;
        }
        var weight := Idf(e, index, term);
        score := score + (Count(query.counts, term) as real * weight) * (chunkCount as real * weight);
      }
      assert query.terms[..|query.terms|] == query.terms;
    }

    method GatherHits(index: Index, query: Frequencies) returns (found: seq<Found>)
      requires Sensible(e) && forall c :: c in index.chunks ==> c.length > 0
      ensures found == Hits(e, index, index.chunks, query)
    {
      found := [];
      for i := 0 to |index.chunks|
        invariant found == Hits(e, index, index.chunks[..i], query)
      {
        assert index.chunks[..i + 1][..i] == index.chunks[..i];
        var c := index.chunks[i];
        assert c in index.chunks;
        var score := ScoreChunk(index, c, query);
        if score > 0.0 {
          found := found + [Found(c.chunk, score / e.sqrt(c.length as real))];
        }
      }
      assert index.chunks[..|index.chunks|] == index.chunks;
    }

    /** `searchDocs`: the answer is the same whatever was cached. */
    method SearchDocs(query: string, limit: int, skill: Option<string>, now: int) returns (results: seq<Found>)
      requires Valid() && Sensible(e)
      modifies this
      ensures Valid()
      ensures results == Answer(e, query, limit, skill)
    {
      var index := GetIndex(skill, now);
      var queryTokens := e.tokenize(query);
      if |queryTokens| == 0 {
        NoTermsNoHits(e, Fresh(e, skill, 0), Fresh(e, skill, 0).chunks);
        return [];
      }
      var queryTf := BuildTermFreq(queryTokens);
      LengthsArePositive(e, AllChunks(e, skill));
      var found := GatherHits(index, queryTf);
      HitsIgnoreBuildTime(e, index, Fresh(e, skill, 0), index.chunks, queryTf);
      var ranked := Ranked(found);
      results := ranked[..Kept(limit, |ranked|)];
    }

    method InvalidateDocsIndex()
      modifies this
      ensures Valid() && cachedIndex == None && cachedSkillText == None
    {
      cachedIndex, cachedSkillText := None, None;
    }
  }

  lemma LengthsArePositive(e: Setting, chunks: seq<Chunk>)
    ensures forall c :: c in IndexedAll(e, chunks) ==> c.length > 0
  {
  }

  lemma {:induction false} NoTermsNoHits(e: Setting, index: Index, chunks: seq<IndexedChunk>)
    ensures Hits(e, index, chunks, TermFreq([])) == []
  {
    if chunks != [] {
      NoTermsNoHits(e, index, chunks[..|chunks| - 1]);
    }
  }
}
