/** ParseStore: builds the shards for one input file, or reuses those already in its shard
    directory, and answers queries by asking every shard.

    The input file is given as the sequence of its lines and the shard directory's listing
    as a sequence of shards (name and stored trie); opening, writing and deleting files
    are not modelled. */
module SearchEngine {
  import opened Text
  import opened Substrings
  import opened Trie
  import opened Index

  /** No line of the input holds the marker character. The build fails on a line with a
      token holding '_' after its first character; lines whose tokens hold '_' only as
      their first character are built without error but are excluded here as well. */
  predicate MarkerFree(lines: seq<string>) {
    forall i | 0 <= i < |lines| :: FinishMarker !in lines[i]
  }

  /** What search comes to: the set of lines found, or the TypeError search_trie raised. */
  datatype SearchOutcome = Results(lines: set<string>) | TypeError

  class ParseStore {
    /** The lines of the input file, as the program reads them. */
    const file: seq<string>
    /** The shards the store searches, in order. */
    var datastores: seq<Shard>

    constructor (file: seq<string>)
      ensures this.file == file && datastores == []
    {
      this.file := file;
      datastores := [];
    }

    /** initialize_datastore: every entry of the shard directory is added to datastores. */
    method InitializeDatastore(listing: seq<Shard>)
      modifies this
      ensures datastores == old(datastores) + listing
    {
      datastores := datastores + listing;
    }

    /** manage_datastore(force_rebuild): after the directory's shards have been added, a
        forced rebuild drops them all; then the index is built from the input exactly when
        no shard is left, and otherwise the shards found are used as they are. */
    method ManageDatastore(forceRebuild: bool, listing: seq<Shard>)
      requires forceRebuild || datastores + listing == [] ==> MarkerFree(file)
      modifies this
      ensures var kept := if forceRebuild then [] else old(datastores) + listing;
              datastores == if kept == [] then Shards(Batches(file)) else kept
    {
      InitializeDatastore(listing);
      if forceRebuild {
        datastores := [];
      }
      if datastores == [] {
        ParseAndInsert();
      }
    }

    /** parse_and_insert: one pass over the input lines, writing a shard whenever the token
        counter is a flush point before a non-blank line, and a last one at the end. */
    method ParseAndInsert()
      requires MarkerFree(file)
      modifies this
      ensures datastores == old(datastores) + Shards(Batches(file))
    {
      var count: nat := 0;
      var tempDict := Empty;
      ghost var flushed: seq<Batch> := [];
      var i := 0;
      assert file[..i] == [];
      while i < |file|
        invariant 0 <= i <= |file|
        invariant Run(file[..i]) == Builder(count, tempDict, flushed)
        invariant datastores == old(datastores) + Shards(flushed)
      {
        ghost var b := Builder(count, tempDict, flushed);
        ghost var next := Step(b, file[i]);
        RunSnoc(file, i);
        var line := Strip(file[i]);
        if line != [] {
          StepNonBlank(b, file[i]);
          if count != 0 && count % BatchSize == 0 {
            ShardsSnoc(flushed, Batch(count, tempDict));
            datastores := datastores + [Shard(ShardName(count), tempDict)];
            flushed := flushed + [Batch(count, tempDict)];
            tempDict := Empty;
          }
          StripKeepsOut(file[i], FinishMarker);
          tempDict, count := InsertLine(line, tempDict, count);
        }
        assert next == Builder(count, tempDict, flushed);
        i := i + 1;
        assert Run(file[..i]) == next;
      }
      assert file[..|file|] == file;
      ShardsSnoc(flushed, Batch(count, tempDict));
      datastores := datastores + [Shard(ShardName(count), tempDict)];
    }

    /** search(search_str): the union of the lookups of the query in every shard, or the
        TypeError search_trie raises on the first shard where it fails, which search does
        not catch. On the shards parse_and_insert wrote, the union is exactly the stripped
        non-blank input lines with a ' '-separated token in which the query occurs, and the
        failure happens exactly for the queries c + "_" + c + ... with c an input line. */
    method Search(searchStr: string) returns (outcome: SearchOutcome)
      ensures outcome.TypeError? <==> AnyShardRaises(datastores, searchStr)
      ensures outcome.Results? ==>
                forall l :: l in outcome.lines <==>
                  exists i | 0 <= i < |datastores| :: l in SearchTrie(searchStr, datastores[i].trie)
      ensures datastores == Shards(Batches(file)) && MarkerFree(file) ==>
                (outcome.TypeError? <==> RaisingQuery(file, searchStr))
      ensures datastores == Shards(Batches(file)) && outcome.Results? ==>
                forall l :: l in outcome.lines <==> IsIndexedLine(file, l) && LineHasMatch(l, searchStr)
    {
      var resultSet := {};
      for i := 0 to |datastores|
        invariant resultSet == UnionSearch(datastores[..i], searchStr)
        invariant !AnyShardRaises(datastores[..i], searchStr)
      {
        if SearchTrieRaises(searchStr, datastores[i].trie) {
          outcome := TypeError;
          if datastores == Shards(Batches(file)) && MarkerFree(file) {
            SearchRaisesIff(file, searchStr);
          }
          return;
        }
        assert datastores[..i + 1][..i] == datastores[..i];
        resultSet := resultSet + SearchTrie(searchStr, datastores[i].trie);
      }
      assert datastores[..|datastores|] == datastores;
      outcome := Results(resultSet);
      forall l | true
        ensures l in resultSet <==>
                exists i | 0 <= i < |datastores| :: l in SearchTrie(searchStr, datastores[i].trie)
      {
        InUnionSearch(datastores, searchStr, l);
      }
      if datastores == Shards(Batches(file)) {
        if MarkerFree(file) {
          SearchRaisesIff(file, searchStr);
        }
        forall l | true
          ensures l in resultSet <==> IsIndexedLine(file, l) && LineHasMatch(l, searchStr)
        {
          SearchCorrect(file, searchStr, l);
        }
      }
    }
  }

  /** The per-token loop of parse_and_insert for one stripped line: split it on ' ',
      insert every substring of every piece tagged with the line, and count the pieces. */
  method InsertLine(line: string, tempDict: Node, count: nat) returns (t: Node, n: nat)
    requires FinishMarker !in line
    ensures t == InsertTokens(tempDict, SplitSpaces(line), line)
    ensures n == count + 1 + SpaceCount(line)
  {
    var strings := SplitSpaces(line);
    SplitKeepsOut(line, FinishMarker);
    t, n := tempDict, count;
    for k := 0 to |strings|
      invariant t == InsertTokens(tempDict, strings[..k], line)
      invariant n == count + k
    {
      assert strings[..k + 1][..k] == strings[..k];
      var fsubs := GenerateSubstrings(strings[k]);
      SlicesKeepOut(strings[k], FinishMarker);
      t := MakeTrie(fsubs, line, t);
      n := n + 1;
    }
    assert strings[..|strings|] == strings;
    SplitSpacesCount(line);
  }

  /** Two forced rebuilds in a row give the same outcome for the same query, whatever the
      shard directory held each time: a failure exactly for c + "_" + c + ... with c an
      input line, and otherwise the lines that match. */
  method RebuildTwice(file: seq<string>, listing1: seq<Shard>, listing2: seq<Shard>, q: string)
    returns (first: SearchOutcome, second: SearchOutcome)
    requires MarkerFree(file)
    ensures first == second
    ensures first.TypeError? <==> RaisingQuery(file, q)
    ensures first.Results? ==>
              forall l :: l in first.lines <==> IsIndexedLine(file, l) && LineHasMatch(l, q)
  {
    var store := new ParseStore(file);
    store.ManageDatastore(true, listing1);
    first := store.Search(q);
    store.ManageDatastore(true, listing2);
    second := store.Search(q);
  }

  /** Without a forced rebuild, an empty shard directory makes a fresh store build the
      index, and a non-empty one is used as it is. */
  method OpenStore(file: seq<string>, listing: seq<Shard>) returns (shards: seq<Shard>)
    requires listing == [] ==> MarkerFree(file)
    ensures shards == if listing == [] then Shards(Batches(file)) else listing
  {
    var store := new ParseStore(file);
    store.ManageDatastore(false, listing);
    shards := store.datastores;
  }
}
