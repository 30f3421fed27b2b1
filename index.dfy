/** The batch builder of ParseStore.parse_and_insert as a specification, and what it
    guarantees about the shards it produces.

    parse_and_insert keeps a counter and one in-memory trie. For each input line it strips
    the line and skips it if nothing is left; otherwise, when the counter is a non-zero
    multiple of 100, it first writes the trie out as a shard named after the counter and
    starts a new one; then it splits the line on ' ' and, for each piece, inserts all the
    piece's substrings tagged with the stripped line and adds one to the counter. So the
    counter counts pieces (tokens, empty ones included), not lines. After the last line
    one more shard is written, whatever the trie holds. */
module Index {
  import opened Text
  import opened Substrings
  import opened Trie

  /** The flush period of parse_and_insert, in tokens. */
  const BatchSize: nat := 100

  /** A flushed batch: the counter's value at the flush and the trie held at that moment. */
  datatype Batch = Batch(count: nat, trie: Node)

  /** A shard file: its name in the shard directory and the trie stored in it. */
  datatype Shard = Shard(name: string, trie: Node)

  /** The file name parse_and_insert gives the shard written at count: str(count) + '.db'. */
  function ShardName(count: nat): (name: string)
    ensures |name| >= 4 && name[|name| - 3..] == ".db" && AllDigits(name[..|name| - 3])
  {
    Decimal(count) + ".db"
  }

  /** Two shards written at different counts have different names. */
  lemma ShardNameInjective(a: nat, b: nat)
    requires ShardName(a) == ShardName(b)
    ensures a == b
  {
    var s := ShardName(a);
    assert Decimal(a) == s[..|s| - 3];
    assert Decimal(b) == s[..|s| - 3];
    DecimalInjective(a, b);
  }

  function ToShard(b: Batch): Shard {
    Shard(ShardName(b.count), b.trie)
  }

  /** The shards the batches are written to, in order. */
  function Shards(bs: seq<Batch>): seq<Shard> {
    seq(|bs|, i requires 0 <= i < |bs| => ToShard(bs[i]))
  }

  /** Writing one more batch adds its shard at the end. */
  lemma ShardsSnoc(bs: seq<Batch>, b: Batch)
    ensures Shards(bs + [b]) == Shards(bs) + [ToShard(b)]
  {
  }

  /** The state of parse_and_insert's loop between two lines: count, temp_dict and the
      batches flushed so far. */
  datatype Builder = Builder(count: nat, temp: Node, flushed: seq<Batch>)

  /** The state before the first line. */
  const Start: Builder := Builder(0, Empty, [])

  /** The counter values at which a shard is written before the next non-blank line. */
  predicate IsFlushPoint(count: nat)
    ensures IsFlushPoint(count) ==> count >= BatchSize
  {
    count != 0 && count % BatchSize == 0
  }

  /** The per-token loop: every substring of every token inserted with line. */
  function InsertTokens(t: Node, tokens: seq<string>, line: string): (r: Node)
    ensures t.children.Keys <= r.children.Keys
    decreases |tokens|
  {
    if tokens == [] then t
    else InsertAll(InsertTokens(t, tokens[..|tokens| - 1], line), Slices(tokens[|tokens| - 1]), line)
  }

  /** The (substring, line) pairs that inserting the tokens' substrings with line adds. */
  ghost function TokenEntries(tokens: seq<string>, line: string): set<(string, string)>
    decreases |tokens|
  {
    if tokens == [] then {}
    else TokenEntries(tokens[..|tokens| - 1], line) + WordEntries(Slices(tokens[|tokens| - 1]), line)
  }

  /** The pairs a stripped, non-blank line contributes. */
  ghost function LineEntries(line: string): set<(string, string)> {
    TokenEntries(SplitSpaces(line), line)
  }

  lemma {:induction false} InsertTokensEntries(t: Node, tokens: seq<string>, line: string)
    ensures Entries(InsertTokens(t, tokens, line)) == Entries(t) + TokenEntries(tokens, line)
    decreases |tokens|
  {
    if tokens != [] {
      var init := tokens[..|tokens| - 1];
      InsertTokensEntries(t, init, line);
      InsertAllEntries(InsertTokens(t, init, line), Slices(tokens[|tokens| - 1]), line);
    }
  }

  lemma EmptyEntries()
    ensures Entries(Empty) == {}
  {
  }

  /** One line of parse_and_insert's loop. A blank line changes nothing; otherwise a shard
      is flushed first exactly when the counter is a flush point (and the trie starts
      again from empty), and the counter grows by the number of pieces of split(' '). */
  function Step(b: Builder, raw: string): (r: Builder)
    ensures Strip(raw) == [] ==> r == b
    ensures Strip(raw) != [] ==> r.count == b.count + 1 + SpaceCount(Strip(raw))
    ensures r.flushed == b.flushed + (if Strip(raw) != [] && IsFlushPoint(b.count)
                                      then [Batch(b.count, b.temp)] else [])
  {
    var line := Strip(raw);
    if line == [] then b
    else
      var b' := if IsFlushPoint(b.count)
                then Builder(b.count, Empty, b.flushed + [Batch(b.count, b.temp)])
                else b;
      var tokens := SplitSpaces(line);
      SplitSpacesCount(line);
      Builder(b'.count + |tokens|, InsertTokens(b'.temp, tokens, line), b'.flushed)
  }

  /** After a non-blank line the trie holds exactly the line's substring pairs, on top of
      what it held before unless a shard was just flushed. */
  lemma StepEntries(b: Builder, raw: string)
    requires Strip(raw) != []
    ensures Entries(Step(b, raw).temp)
         == (if IsFlushPoint(b.count) then {} else Entries(b.temp)) + LineEntries(Strip(raw))
  {
    var line := Strip(raw);
    InsertTokensEntries(if IsFlushPoint(b.count) then Empty else b.temp, SplitSpaces(line), line);
    EmptyEntries();
  }

  /** The loop state after the given lines. */
  function Run(lines: seq<string>): (r: Builder)
    ensures |r.flushed| <= |lines|
    decreases |lines|
  {
    if lines == [] then Start else Step(Run(lines[..|lines| - 1]), lines[|lines| - 1])
  }

  /** The loop state after one more line. */
  lemma RunSnoc(lines: seq<string>, i: nat)
    requires i < |lines|
    ensures Run(lines[..i + 1]) == Step(Run(lines[..i]), lines[i])
  {
    assert lines[..i + 1][..i] == lines[..i];
  }

  /** Step on a non-blank line, written out as the loop computes it. */
  lemma StepNonBlank(b: Builder, raw: string)
    requires Strip(raw) != []
    ensures var line := Strip(raw);
            var start := if IsFlushPoint(b.count) then Empty else b.temp;
            Step(b, raw).temp == InsertTokens(start, SplitSpaces(line), line)
  {
  }

  /** Every batch parse_and_insert writes: those flushed in the loop and the final one. */
  function Batches(lines: seq<string>): (r: seq<Batch>)
    ensures |r| >= 1
  {
    var b := Run(lines);
    b.flushed + [Batch(b.count, b.temp)]
  }

  // ---------------------------------------------------------------------------------
  // The specification the index is measured against

  /** l is one of the stripped, non-blank input lines. */
  ghost predicate IsIndexedLine(lines: seq<string>, l: string) {
    l != [] && exists i | 0 <= i < |lines| :: Strip(lines[i]) == l
  }

  /** Some ' '-separated token of l has q as a non-empty contiguous slice. */
  ghost predicate LineHasMatch(l: string, q: string) {
    exists k | 0 <= k < |SplitSpaces(l)| :: OccursIn(q, SplitSpaces(l)[k])
  }

  /** The pairs of all the non-blank lines. */
  ghost function LinesEntries(lines: seq<string>): set<(string, string)>
    decreases |lines|
  {
    if lines == [] then {}
    else
      var l := Strip(lines[|lines| - 1]);
      LinesEntries(lines[..|lines| - 1]) + (if l == [] then {} else LineEntries(l))
  }

  /** The pairs stored in all of the batches together. */
  ghost function BatchEntries(bs: seq<Batch>): set<(string, string)>
    decreases |bs|
  {
    if bs == [] then {} else BatchEntries(bs[..|bs| - 1]) + Entries(bs[|bs| - 1].trie)
  }

  lemma BatchEntriesAppend(bs: seq<Batch>, b: Batch)
    ensures BatchEntries(bs + [b]) == BatchEntries(bs) + Entries(b.trie)
  {
    assert (bs + [b])[..|bs|] == bs;
  }

  /** The union over shards that ParseStore.search computes. */
  function UnionSearch(shards: seq<Shard>, q: string): (r: set<string>)
    ensures forall i | 0 <= i < |shards| :: SearchTrie(q, shards[i].trie) <= r
    decreases |shards|
  {
    if shards == [] then {}
    else
      var n := |shards| - 1;
      assert forall i | 0 <= i < n :: shards[..n][i] == shards[i];
      UnionSearch(shards[..n], q) + SearchTrie(q, shards[n].trie)
  }

  // ---------------------------------------------------------------------------------
  // Content of the index

  /** A pair (q, l) comes from a token list exactly when l is the line and q occurs in
      one of the tokens. */
  lemma {:induction false} TokenEntriesIff(tokens: seq<string>, line: string, q: string, l: string)
    ensures (q, l) in TokenEntries(tokens, line)
        <==> l == line && exists k | 0 <= k < |tokens| :: OccursIn(q, tokens[k])
    decreases |tokens|
  {
    if tokens != [] {
      var n := |tokens| - 1;
      var init := tokens[..n];
      TokenEntriesIff(init, line, q, l);
      InSlicesIff(q, tokens[n]);
      if exists k | 0 <= k < |tokens| :: OccursIn(q, tokens[k]) {
        var k :| 0 <= k < |tokens| && OccursIn(q, tokens[k]);
        if k < n {
          assert init[k] == tokens[k];
        }
      }
      if exists k | 0 <= k < |init| :: OccursIn(q, init[k]) {
        var k :| 0 <= k < |init| && OccursIn(q, init[k]);
        assert tokens[k] == init[k];
      }
    }
  }

  /** l is indexed by lines exactly when it is indexed by all but the last line, or is the
      last line stripped and non-blank. */
  lemma IndexedLineSnoc(lines: seq<string>, l: string)
    requires lines != []
    ensures IsIndexedLine(lines, l)
        <==> IsIndexedLine(lines[..|lines| - 1], l) || (l != [] && Strip(lines[|lines| - 1]) == l)
  {
    var n := |lines| - 1;
    var init := lines[..n];
    if IsIndexedLine(lines, l) {
      var i :| 0 <= i < |lines| && Strip(lines[i]) == l;
      if i < n {
        assert init[i] == lines[i];
      }
    }
    if IsIndexedLine(init, l) {
      var i :| 0 <= i < |init| && Strip(init[i]) == l;
      assert lines[i] == init[i];
    }
  }

  /** The pairs of the input lines are exactly (q, l) for an indexed line l with a token
      in which q occurs. */
  lemma {:induction false} LinesEntriesIff(lines: seq<string>, q: string, l: string)
    ensures (q, l) in LinesEntries(lines) <==> IsIndexedLine(lines, l) && LineHasMatch(l, q)
    decreases |lines|
  {
    if lines != [] {
      var n := |lines| - 1;
      var last := Strip(lines[n]);
      LinesEntriesIff(lines[..n], q, l);
      IndexedLineSnoc(lines, l);
      if last != [] {
        TokenEntriesIff(SplitSpaces(last), last, q, l);
      }
    }
  }

  /** What is held in memory plus what was flushed is what the lines contribute. */
  lemma {:induction false} RunEntries(lines: seq<string>)
    ensures Entries(Run(lines).temp) + BatchEntries(Run(lines).flushed) == LinesEntries(lines)
    decreases |lines|
  {
    if lines == [] {
      EmptyEntries();
    } else {
      var init := lines[..|lines| - 1];
      var b := Run(init);
      RunEntries(init);
      if Strip(lines[|lines| - 1]) != [] {
        StepEntries(b, lines[|lines| - 1]);
        if IsFlushPoint(b.count) {
          BatchEntriesAppend(b.flushed, Batch(b.count, b.temp));
        }
      }
    }
  }

  /** Splitting into batches loses nothing and adds nothing: the batches together hold
      exactly the pairs of the input lines. */
  lemma BatchesEntries(lines: seq<string>)
    ensures BatchEntries(Batches(lines)) == LinesEntries(lines)
  {
    var b := Run(lines);
    RunEntries(lines);
    BatchEntriesAppend(b.flushed, Batch(b.count, b.temp));
  }

  /** A line is in the union of the shard lookups exactly when some shard holds the pair. */
  lemma {:induction false} UnionSearchEntries(bs: seq<Batch>, q: string, l: string)
    ensures l in UnionSearch(Shards(bs), q) <==> (q, l) in BatchEntries(bs)
    decreases |bs|
  {
    if bs != [] {
      var n := |bs| - 1;
      assert Shards(bs)[..n] == Shards(bs[..n]);
      UnionSearchEntries(bs[..n], q, l);
      SearchTrieIsEntries(bs[n].trie, q, l);
    }
  }

  /** A line is in the union exactly when one of the shards' lookups yields it. */
  lemma {:induction false} InUnionSearch(shards: seq<Shard>, q: string, l: string)
    ensures l in UnionSearch(shards, q)
        <==> exists i | 0 <= i < |shards| :: l in SearchTrie(q, shards[i].trie)
    decreases |shards|
  {
    if shards != [] {
      var n := |shards| - 1;
      var init := shards[..n];
      InUnionSearch(init, q, l);
      if exists i | 0 <= i < |shards| :: l in SearchTrie(q, shards[i].trie) {
        var i :| 0 <= i < |shards| && l in SearchTrie(q, shards[i].trie);
        if i < n {
          assert init[i] == shards[i];
        }
      }
      if exists i | 0 <= i < |init| :: l in SearchTrie(q, init[i].trie) {
        var i :| 0 <= i < |init| && l in SearchTrie(q, init[i].trie);
        assert shards[i] == init[i];
      }
    }
  }

  /** Soundness and completeness of the built index: searching the shards parse_and_insert
      writes for q yields exactly the stripped non-blank input lines that have a
      ' '-separated token in which q occurs. */
  lemma SearchCorrect(lines: seq<string>, q: string, l: string)
    ensures l in UnionSearch(Shards(Batches(lines)), q)
        <==> IsIndexedLine(lines, l) && LineHasMatch(l, q)
  {
    UnionSearchEntries(Batches(lines), q, l);
    BatchesEntries(lines);
    LinesEntriesIff(lines, q, l);
  }

  /** The empty query finds nothing: no stored substring is empty. */
  lemma EmptyQueryFindsNothing(lines: seq<string>)
    ensures UnionSearch(Shards(Batches(lines)), "") == {}
  {
    forall l | l in UnionSearch(Shards(Batches(lines)), "") ensures false {
      SearchCorrect(lines, "", l);
    }
  }

  /** search fails with TypeError when one of the shards makes search_trie fail. */
  predicate AnyShardRaises(shards: seq<Shard>, q: string)
    ensures AnyShardRaises(shards, q) ==> FinishMarker in q
    ensures shards == [] ==> !AnyShardRaises(shards, q)
  {
    exists i | 0 <= i < |shards| :: SearchTrieRaises(q, shards[i].trie)
  }

  /** A line without '_' matches no query holding '_'. */
  lemma MatchKeepsOut(l: string, q: string)
    requires FinishMarker !in l
    ensures LineHasMatch(l, q) ==> FinishMarker !in q
  {
    if LineHasMatch(l, q) {
      var k :| 0 <= k < |SplitSpaces(l)| && OccursIn(q, SplitSpaces(l)[k]);
      var tok := SplitSpaces(l)[k];
      SplitKeepsOut(l, FinishMarker);
      var a, b :| 0 <= a < b <= |tok| && tok[a..b] == q;
      forall p | 0 <= p < |q| ensures q[p] != FinishMarker {
        assert q[p] == tok[a + p];
      }
    }
  }

  /** On input without '_', a query holding '_' finds nothing: no stored substring holds it. */
  lemma MarkerQueryFindsNothing(lines: seq<string>, q: string)
    requires forall i | 0 <= i < |lines| :: FinishMarker !in lines[i]
    requires FinishMarker in q
    ensures UnionSearch(Shards(Batches(lines)), q) == {}
  {
    forall l | l in UnionSearch(Shards(Batches(lines)), q) ensures false {
      SearchCorrect(lines, q, l);
      var i :| 0 <= i < |lines| && Strip(lines[i]) == l;
      StripKeepsOut(lines[i], FinishMarker);
      MatchKeepsOut(l, q);
    }
  }

  /** A one-character stored line c is found by the query c. */
  lemma SingleCharLine(lines: seq<string>, c: char)
    requires IsIndexedLine(lines, [c])
    ensures [c] in UnionSearch(Shards(Batches(lines)), [c])
  {
    var i :| 0 <= i < |lines| && Strip(lines[i]) == [c];
    assert !IsSpace(c);
    assert SplitSpaces([c]) == [[c]];
    assert [c][0..1] == [c];
    assert OccursIn([c], SplitSpaces([c])[0]);
    assert LineHasMatch([c], [c]);
    SearchCorrect(lines, [c], [c]);
  }

  /** A query found a one-character stored line c only if it is c itself. */
  lemma SingleCharMatch(lines: seq<string>, q: string, c: char)
    requires [c] in UnionSearch(Shards(Batches(lines)), q)
    ensures IsIndexedLine(lines, [c]) && q == [c]
  {
    SearchCorrect(lines, q, [c]);
    var i :| 0 <= i < |lines| && Strip(lines[i]) == [c];
    assert !IsSpace(c);
    assert SplitSpaces([c]) == [[c]];
    var a, b :| 0 <= a < b <= 1 && [c][a..b] == q;
  }

  /** The queries c + "_" + c + ... on which search fails, c being a one-character line. */
  ghost predicate RaisingQuery(lines: seq<string>, q: string) {
    |q| >= 3 && q[1] == FinishMarker && q[2] == q[0] && IsIndexedLine(lines, [q[0]])
  }

  /** A failing lookup on a built shard has the form c + "_" + c + ...: the node it stepped
      through the marker of holds only c, so the query before the '_' is c. */
  lemma RaisesOnlyOnRaisingQuery(lines: seq<string>, q: string, i: nat)
    requires forall j | 0 <= j < |lines| :: FinishMarker !in lines[j]
    requires i < |Shards(Batches(lines))| && SearchTrieRaises(q, Shards(Batches(lines))[i].trie)
    ensures RaisingQuery(lines, q)
  {
    var shards := Shards(Batches(lines));
    var k :| 0 <= k < |q| && q[k] == FinishMarker && FinishMarker !in q[..k] &&
             [if k + 1 < |q| then q[k + 1] else FinishMarker] in SearchTrie(q[..k], shards[i].trie);
    var c := if k + 1 < |q| then q[k + 1] else FinishMarker;
    InUnionSearch(shards, q[..k], [c]);
    SingleCharMatch(lines, q[..k], c);
    var j :| 0 <= j < |lines| && Strip(lines[j]) == [c];
    StripKeepsOut(lines[j], FinishMarker);
    assert q[0] == q[..k][0];
  }

  /** The query c + "_" + c + ... fails on the shard that stores the line c. */
  lemma RaisingQueryRaises(lines: seq<string>, q: string)
    requires forall j | 0 <= j < |lines| :: FinishMarker !in lines[j]
    requires RaisingQuery(lines, q)
    ensures AnyShardRaises(Shards(Batches(lines)), q)
  {
    var shards := Shards(Batches(lines));
    var c := q[0];
    var j :| 0 <= j < |lines| && Strip(lines[j]) == [c];
    StripKeepsOut(lines[j], FinishMarker);
    assert q[..1] == [c];
    SingleCharLine(lines, c);
    InUnionSearch(shards, [c], [c]);
    var i :| 0 <= i < |shards| && [c] in SearchTrie([c], shards[i].trie);
    assert SearchTrieRaises(q, shards[i].trie) by {
      assert q[1] == FinishMarker && FinishMarker !in q[..1];
      assert [q[2]] in SearchTrie(q[..1], shards[i].trie);
    }
  }

  /** On input without '_', search fails on the built shards exactly for the queries
      c + "_" + c + ..., where c is one of the stripped input lines: the descent for c
      reaches the set of lines holding c, and the next character c is one of them. */
  lemma SearchRaisesIff(lines: seq<string>, q: string)
    requires forall i | 0 <= i < |lines| :: FinishMarker !in lines[i]
    ensures AnyShardRaises(Shards(Batches(lines)), q) <==> RaisingQuery(lines, q)
  {
    if AnyShardRaises(Shards(Batches(lines)), q) {
      var i :| 0 <= i < |Shards(Batches(lines))| && SearchTrieRaises(q, Shards(Batches(lines))[i].trie);
      RaisesOnlyOnRaisingQuery(lines, q, i);
    }
    if RaisingQuery(lines, q) {
      RaisingQueryRaises(lines, q);
    }
  }

  /** The trie one would get by inserting the whole input into a single trie. */
  function SingleTrie(lines: seq<string>): Node
    decreases |lines|
  {
    if lines == [] then Empty
    else
      var l := Strip(lines[|lines| - 1]);
      var t := SingleTrie(lines[..|lines| - 1]);
      if l == [] then t else InsertTokens(t, SplitSpaces(l), l)
  }

  lemma {:induction false} SingleTrieEntries(lines: seq<string>)
    ensures Entries(SingleTrie(lines)) == LinesEntries(lines)
    decreases |lines|
  {
    if lines == [] {
      EmptyEntries();
    } else {
      var init := lines[..|lines| - 1];
      var l := Strip(lines[|lines| - 1]);
      SingleTrieEntries(init);
      if l != [] {
        InsertTokensEntries(SingleTrie(init), SplitSpaces(l), l);
      }
    }
  }

  /** Sharding is invisible to search: the union of the shard lookups is the lookup in one
      trie built from the whole input. */
  lemma ShardingTransparent(lines: seq<string>, q: string)
    ensures UnionSearch(Shards(Batches(lines)), q) == SearchTrie(q, SingleTrie(lines))
  {
    forall l | true
      ensures l in UnionSearch(Shards(Batches(lines)), q) <==> l in SearchTrie(q, SingleTrie(lines))
    {
      UnionSearchEntries(Batches(lines), q, l);
      BatchesEntries(lines);
      SingleTrieEntries(lines);
      SearchTrieIsEntries(SingleTrie(lines), q, l);
    }
  }

  // ---------------------------------------------------------------------------------
  // Batching

  /** The number of tokens in the non-blank lines: one more than the spaces of each. */
  function TokenTotal(lines: seq<string>): nat
    decreases |lines|
  {
    if lines == [] then 0
    else
      var l := Strip(lines[|lines| - 1]);
      TokenTotal(lines[..|lines| - 1]) + (if l == [] then 0 else 1 + SpaceCount(l))
  }

  /** The counters of flushed batches are flush points, strictly increasing, and all below
      the current counter. */
  ghost predicate WellBatched(b: Builder) {
    && (forall i | 0 <= i < |b.flushed| :: IsFlushPoint(b.flushed[i].count))
    && (forall i, j | 0 <= i < j < |b.flushed| :: b.flushed[i].count < b.flushed[j].count)
    && (forall i | 0 <= i < |b.flushed| :: b.flushed[i].count < b.count)
  }

  /** One line keeps WellBatched. */
  lemma StepWellBatched(b: Builder, raw: string)
    requires WellBatched(b)
    ensures WellBatched(Step(b, raw))
  {
    var r := Step(b, raw);
    if Strip(raw) != [] {
      assert r.count > b.count;
      if IsFlushPoint(b.count) {
        assert r.flushed == b.flushed + [Batch(b.count, b.temp)];
      } else {
        assert r.flushed == b.flushed;
      }
    }
  }

  /** The loop keeps WellBatched, and its counter is the number of tokens read. */
  lemma {:induction false} RunInvariant(lines: seq<string>)
    ensures WellBatched(Run(lines))
    ensures Run(lines).count == TokenTotal(lines)
    decreases |lines|
  {
    if lines != [] {
      var init := lines[..|lines| - 1];
      RunInvariant(init);
      StepWellBatched(Run(init), lines[|lines| - 1]);
    }
  }

  /** The batches written: every one but the last at a flush point, the counters strictly
      increasing, and the last at the total number of tokens. */
  lemma BatchCounts(lines: seq<string>)
    ensures forall i | 0 <= i < |Batches(lines)| - 1 :: IsFlushPoint(Batches(lines)[i].count)
    ensures forall i, j | 0 <= i < j < |Batches(lines)| ::
              Batches(lines)[i].count < Batches(lines)[j].count
    ensures Batches(lines)[|Batches(lines)| - 1].count == TokenTotal(lines)
  {
    RunInvariant(lines);
  }

  /** The flush test looks at the token counter only at line boundaries: when the number of
      tokens read before each line is never a non-zero multiple of 100, nothing is flushed
      in the loop and the whole input goes into the one final shard, however large. */
  lemma {:induction false} NoFlushPointOneShard(lines: seq<string>)
    requires forall i | 0 <= i < |lines| :: !IsFlushPoint(TokenTotal(lines[..i]))
    ensures |Batches(lines)| == 1
    decreases |lines|
  {
    if lines != [] {
      var n := |lines| - 1;
      var init := lines[..n];
      assert forall i | 0 <= i < n :: init[..i] == lines[..i];
      NoFlushPointOneShard(init);
      RunInvariant(init);
      var b := Run(init);
      assert b.count == TokenTotal(lines[..n]);
      assert !IsFlushPoint(b.count);
      assert Run(lines).flushed == b.flushed;
    }
  }

  /** The shards parse_and_insert writes have pairwise different names. */
  lemma ShardNamesDistinct(lines: seq<string>)
    ensures forall i, j | 0 <= i < j < |Shards(Batches(lines))| ::
              Shards(Batches(lines))[i].name != Shards(Batches(lines))[j].name
  {
    var bs := Batches(lines);
    BatchCounts(lines);
    forall i, j | 0 <= i < j < |bs| ensures Shards(bs)[i].name != Shards(bs)[j].name {
      if ShardName(bs[i].count) == ShardName(bs[j].count) {
        ShardNameInjective(bs[i].count, bs[j].count);
      }
    }
  }

  /** With no non-blank line the loop never leaves its start state. */
  lemma {:induction false} BlankRunIsStart(lines: seq<string>)
    requires forall i | 0 <= i < |lines| :: AllSpace(lines[i])
    ensures Run(lines) == Start
    decreases |lines|
  {
    if lines != [] {
      var n := |lines| - 1;
      assert forall i | 0 <= i < n :: lines[..n][i] == lines[i];
      BlankRunIsStart(lines[..n]);
      assert AllSpace(lines[n]);
    }
  }

  /** An input with no non-blank line still gets one shard, 0.db, holding an empty trie. */
  lemma BlankInputOneEmptyShard(lines: seq<string>)
    requires forall i | 0 <= i < |lines| :: AllSpace(lines[i])
    ensures Shards(Batches(lines)) == [Shard("0.db", Empty)]
  {
    BlankRunIsStart(lines);
    assert Decimal(0) == "0";
    assert ShardName(0) == "0.db";
  }
}
