# Substring search index (search_engine.py) in Dafny

`search_engine.py` indexes every line of a text file so that a query finds the lines where
it occurs inside a token. Each stripped, non-blank line is split on `' '`. Every contiguous
substring of every piece goes into a character trie, and the trie node reached by the
substring records the line. The final node keeps its set of lines under the marker key `'_'`.
The in-memory trie is written out as a numbered shard (`<count>.db`) whenever the token
counter is a non-zero multiple of 100 at the start of a non-blank line. One final shard
is always written at the end. A search looks the query up in every shard and returns the
union of the sets found. On input without `'_'`, a query that starts with a character c,
then `'_'`, then c again, where c is a one-character line (such as `b_b` when `b` is a
line), makes the lookup step into a set of lines and fail with `TypeError`. On such input
every other query with a `'_'` finds nothing.

The model has five modules:

- `Text`: the three Python 2 builtins the indexer relies on.
  - `str.strip()` is `Strip`. It removes the C `isspace` characters.
  - `str.split(' ')` is `SplitSpaces`. Empty pieces are kept.
  - `str()` of a non-negative int is `Decimal`.
- `Substrings`: `generate_substrings` as a method with its two nested loops. It is proved
  equal to the list `Slices`.
- `Trie`: the trie node as a datatype, with children `map<char, Node>` and a separate
  optional set of lines for the marker. The module has:
  - `Insert`, the path walk of `make_trie`;
  - `make_trie` itself as a method looping over the words;
  - `search_trie` as a recursive descent;
  - `Entries`, the abstract content of a trie: the set of (word, line) pairs it stores.

  Lookup is proved to agree with `Entries`.
- `Index`: the loop of `parse_and_insert` as a specification.
  - `Step` handles one line, and `Run` folds it over the lines.
  - `Batches` adds the final flush. `Shards` gives each batch its name.
  - The module proves what the shards hold, how the counter and the flushes behave, and the
    global soundness and completeness of search.
- `SearchEngine`: class `ParseStore`.
  - `datastores` is a `seq<Shard>` field that the methods reassign.
  - `ParseAndInsert` is the imperative loop, proved to append `Shards(Batches(file))`.
  - `Search` accumulates the union over the shards, or stops with `TypeError` at the first
    shard where the lookup fails.
  - `ManageDatastore` and `InitializeDatastore` decide between rebuilding and reusing.

The file is given as the sequence of its lines. The shard directory's listing is given as a
sequence of shards, each a name plus the stored trie.

The comment on the flush test (search_engine.py:117) says "every 100 lines". The code
does something else:

- it counts tokens (the pieces of `split(' ')`, empty ones included);
- it tests the counter only before a non-blank line;
- it always writes a final shard, even an empty one.

The model follows the code. See `Index.NoFlushPointOneShard` and
`Index.BlankInputOneEmptyShard`.

## Model

| member | source | states |
|---|---|---|
| Text.Strip | search_engine.py:114 | the stripped line neither starts nor ends with whitespace, and it is empty exactly when the raw line is all whitespace |
| Text.StripRemovesEnds | search_engine.py:114 | the stripped line is a contiguous slice of the raw line with only whitespace before and after it, so only the ends are removed |
| Text.StripUnique | search_engine.py:114 | conversely, any slice with only whitespace around it and no whitespace at its own ends is the stripped line, so the two lemmas determine `strip()` completely |
| Text.StripKeepsOut | search_engine.py:114 | stripping adds no character, so a line without the marker stays without it |
| Text.SplitSpaces | search_engine.py:129 | `split(' ')` gives at least one piece and no piece contains a space |
| Text.SplitSpacesCount | search_engine.py:129 | `split(' ')` gives one piece more than the line has spaces, empty pieces included |
| Text.JoinSplit | search_engine.py:129 | joining the pieces with single spaces gives back the line, so the split loses nothing but the separators |
| Text.SplitKeepsOut | search_engine.py:129 | a character absent from the line is absent from every piece |
| Text.Decimal | search_engine.py:118 | `str(count)` is a non-empty string of decimal digits; it starts with `0` only when it is `"0"`, and 0 gives `"0"` |
| Text.DecimalRoundTrip | search_engine.py:118 | reading the digits of `str(count)` back gives count |
| Text.DecimalInjective | search_engine.py:118 | different counters render as different strings |
| Text.DecimalOfValue | search_engine.py:118 | every digit string without a leading zero, `"0"` included, is `str` of the number it denotes, so `Decimal` is a bijection onto those strings |
| Substrings.GenerateSubstrings | search_engine.py:48-54 | the nested loops produce exactly the list `Slices(strng)` |
| Substrings.SlicesCount | search_engine.py:48-54 | a token of length L gives L*(L+1)/2 substrings, so the empty token gives none |
| Substrings.SlicesAt | search_engine.py:51-53 | `strng[start:end+1]` sits at the position given by start then end: the list is ordered by start, then by end |
| Substrings.InSlicesIff | search_engine.py:48-54 | a string is in the list exactly when it is a non-empty contiguous slice of the token |
| Substrings.SlicesKeepOut | search_engine.py:53 | no substring holds a character the token does not hold |
| Trie.Descend | search_engine.py:67-71 | the node reached by following the word's characters one child at a time, or none; a path exists only if the first character has a child (DescendConcat composes paths) |
| Trie.SearchTrie | search_engine.py:65-76 | the marker's lines at the node the word leads to, nothing when some character has no child (directly for the first one); SearchTrieMissingChild and SearchTrieIsEntries characterise it fully. On a trie with no `'_'` child it is the program's answer whenever `SearchTrieRaises` does not hold, and SearchRaisesIff says when that is |
| Trie.Insert | search_engine.py:59-63 | one word's path walk: only the first character's child is added or replaced, every other child is kept as it was, and an empty word adds the line to the node's own set; InsertSearch and InsertEntries give its effect on every lookup and on the content |
| Trie.InsertAll | search_engine.py:58-63 | every word inserted in turn, which never removes a child or a line of the root; InsertAllSearch and InsertAllEntries give its full effect |
| Trie.DescendConcat | search_engine.py:67-69 | descending along u + v is descending along u and then along v |
| Trie.SearchTrieRaises | search_engine.py:67-76 | `search_trie` raises `TypeError`: with k the position of the first `'_'`, the node for `word[..k]` has a marker, and the next character, or `'_'` when the word ends at k, is one of that node's lines (a trailing `'_'` fails at the marker test of :73-74); a word without `'_'` never raises |
| Trie.SearchTrieMissingChild | search_engine.py:67-71 | `search_trie` yields nothing as soon as a character of the word has no child on the path |
| Trie.SearchEmpty | search_engine.py:65-76 | a fresh `dict()` answers every lookup with nothing |
| Trie.SearchTrieIsEntries | search_engine.py:65-76 | a line is in `search_trie(word, t)` exactly when the pair (word, line) is stored in t (lookup agrees with the trie's content) |
| Trie.InsertSearch | search_engine.py:59-63 | inserting (w, line) adds line to the lookup of w and leaves every other lookup unchanged |
| Trie.InsertEntries | search_engine.py:59-63 | inserting (w, line) keeps every stored pair and adds only (w, line) |
| Trie.InsertIdempotent | search_engine.py:62-63 | inserting the same word with the same line twice gives the same trie as inserting it once |
| Trie.InsertAllSearch | search_engine.py:56-63 | after inserting words with line, the lookup of q gains line exactly when q is one of the words |
| Trie.InsertAllEntries | search_engine.py:56-63 | after inserting words with line, the content is the old content plus (w, line) for every word w |
| Trie.MakeTrie | search_engine.py:56-63 | `make_trie` leaves the trie equal to the words' insertions in order, every word's lookup then contains the line, and no other lookup or pair changes |
| Index.ShardName | search_engine.py:118 | the shard written at count is named `str(count)` followed by `.db`: decimal digits, then the suffix |
| Index.IsFlushPoint | search_engine.py:117 | the test `count and (count % 100) == 0`: a non-zero multiple of 100, so never below 100 |
| Index.ShardNameInjective | search_engine.py:118 | shards written at different counts get different file names |
| Index.Step | search_engine.py:114-138 | a blank line changes nothing; otherwise the counter grows by the number of pieces of the split, and a batch is flushed exactly when the old counter is a non-zero multiple of 100 |
| Index.StepEntries | search_engine.py:126-138 | after a non-blank line the trie holds the line's substring pairs on top of what it held before, or on top of nothing right after a flush |
| Index.Run | search_engine.py:113-138 | the loop state after the given lines, Step folded from the start state; at most one batch is flushed per line, and RunEntries and RunInvariant characterise it |
| Index.InsertTokens | search_engine.py:133-138 | every substring of every piece inserted with the line, never removing a child of the root; InsertTokensEntries gives its exact content |
| Index.Batches | search_engine.py:140-145 | there is always at least one shard, the final one |
| Index.InsertTokensEntries | search_engine.py:133-138 | inserting the substrings of the line's pieces adds exactly their (substring, line) pairs |
| Index.TokenEntriesIff | search_engine.py:133-136 | (q, l) comes from a line's pieces exactly when l is that line and q occurs in one of the pieces |
| Index.LinesEntriesIff | search_engine.py:113-138 | the pairs contributed by the input are exactly (q, l) where l is a stripped non-blank line with a piece in which q occurs |
| Index.RunEntries | search_engine.py:113-138 | at every point of the loop, what is in memory plus what has been flushed is exactly what the lines read so far contribute |
| Index.BatchesEntries | search_engine.py:113-145 | the shards together hold exactly the pairs of the input: splitting into shards loses nothing and adds nothing |
| Index.UnionSearch | search_engine.py:153-156 | the union of the lookups of the query in every shard, which contains each shard's lookup; InUnionSearch shows it holds nothing else |
| Index.UnionSearchEntries | search_engine.py:153-156 | a line is in the union of the shard lookups exactly when some shard stores the pair |
| Index.InUnionSearch | search_engine.py:153-156 | a line is in the union exactly when one shard's lookup yields it |
| Index.SearchCorrect | search_engine.py:113-156 | searching the built shards for q yields exactly the stripped non-blank input lines that have a `' '`-separated piece of which q is a non-empty substring |
| Index.EmptyQueryFindsNothing | search_engine.py:153-156 | the empty query finds no line, because no stored substring is empty |
| Index.MatchKeepsOut | search_engine.py:129-136 | a line without `'_'` matches no query holding `'_'` |
| Index.MarkerQueryFindsNothing | search_engine.py:65-76 | on input without `'_'`, a query holding `'_'` finds nothing in the built shards, which is the program's `[]` whenever it does not fail |
| Index.AnyShardRaises | search_engine.py:153-156 | `search` fails when the lookup in one of its shards fails, which it does not catch; only a query holding `'_'` can fail, and no shard means no failure |
| Index.SingleCharLine | search_engine.py:65-76 | a stored one-character line c is found by the query c |
| Index.SingleCharMatch | search_engine.py:65-76 | a query finds a one-character line c only if it is c itself and c is a stored line |
| Index.RaisesOnlyOnRaisingQuery | search_engine.py:65-76 | on input without `'_'`, a query on which `search_trie` fails for a built shard has the form c + `_` + c + ..., with c a stripped input line |
| Index.RaisingQueryRaises | search_engine.py:65-76 | conversely, such a query fails on the shard that stores the line c |
| Index.SearchRaisesIff | search_engine.py:65-76 | on input without `'_'`, `search_trie` raises `TypeError` on some built shard (`SearchTrieRaises`: at the first `'_'` it steps into the set of lines, and the next character is one of them) exactly for the queries c + `_` + c + ..., with c a stripped input line |
| Index.SingleTrieEntries | search_engine.py:113-138 | one trie built from the whole input holds exactly the input's pairs |
| Index.ShardingTransparent | search_engine.py:113-156 | the union of the shard lookups equals the lookup in a single trie built from the whole input |
| Index.StepWellBatched | search_engine.py:115-138 | one line keeps the flushed counters at flush points, strictly increasing and below the current counter |
| Index.RunInvariant | search_engine.py:111-138 | the loop keeps that invariant, and its counter equals the number of pieces of the non-blank lines read |
| Index.BatchCounts | search_engine.py:117-145 | every shard but the last is written at a non-zero multiple of 100, counters strictly increase, and the last is written at the total token count |
| Index.NoFlushPointOneShard | search_engine.py:117 | when the token count before each line is never a non-zero multiple of 100, the whole input goes into one shard |
| Index.ShardNamesDistinct | search_engine.py:117-145 | the shard names written are pairwise different |
| Index.BlankRunIsStart | search_engine.py:114-116 | blank lines leave the counter, the trie and the flushed list untouched |
| Index.BlankInputOneEmptyShard | search_engine.py:140-145 | an input with no non-blank line still gets one shard, `0.db`, holding an empty trie |
| SearchEngine.ParseStore.constructor | search_engine.py:81-84 | a new store has the given file and no shards |
| SearchEngine.ParseStore.InitializeDatastore | search_engine.py:100-105 | every entry of the shard directory is appended to `datastores`, in listing order |
| SearchEngine.ParseStore.ManageDatastore | search_engine.py:88-98 | a forced rebuild drops all shards; the index is built from the input exactly when no shard is left, and otherwise the shards found are kept unchanged |
| SearchEngine.ParseStore.ParseAndInsert | search_engine.py:107-146 | the loop appends to `datastores` exactly the shards of `Batches(file)`, so all the results about `Batches` hold for what it writes |
| SearchEngine.InsertLine | search_engine.py:129-138 | the per-token loop inserts every substring of every piece with the line, and adds one to the counter per piece |
| SearchEngine.ParseStore.Search | search_engine.py:148-162 | the outcome is `TypeError` exactly when some shard makes `search_trie` fail, and otherwise the union of the shard lookups; on the shards `ParseAndInsert` wrote from input without `'_'`, it fails exactly for c + `_` + c + ... with c an input line, and otherwise yields exactly the lines with a token containing the query |
| SearchEngine.RebuildTwice | search_engine.py:88-98 | two forced rebuilds give the same outcome for a query, whatever the directory held each time: the failure for c + `_` + c + ... with c an input line, otherwise the correct lines |
| SearchEngine.OpenStore | search_engine.py:88-98 | without a forced rebuild, a fresh store builds the index when the directory is empty and otherwise uses the listing as it is |

## Left out

- File-system I/O is not modelled: `shelve` persistence, `open`/`close`, `os.path.exists`,
  `makedirs`, `listdir` and `unlink`. A shard is an in-memory (name, trie) pair. The
  directory listing is a parameter of `InitializeDatastore` and `ManageDatastore`, and
  deleting the old shard files on a forced rebuild is not modelled.
- The shard directory path (`abspath`/`dirname`/`basename`) is not modelled, since it
  depends on the working directory and the OS. Shard names are the file names only.
- `logging`, `print`, `time.time()` and the timing and count output of `search` are left
  out, because they are output and floating point.
- SearchEngine.ParseStore.Search: returns the result set, where the program logs it
  and returns None. A failure is the bare `TypeError` outcome, with no message or
  traceback.
- The `except` branch around `split` is left out: `str.split` cannot fail on a string.
- `parse_options`, `OptionParser` and the `raw_input` loop are left out: they are
  command-line and interactive I/O.
- The depth-1 paging of `shelve` and the unclosed shelve handles are left out: they have
  no effect on results.
- Trie.MakeTrie: requires that no word contains `'_'`, because the model keeps a node's
  marker apart from its children.
  - The program fails only on a token with a `'_'` after its first character, such as
    `a_`. The slice `a` is inserted first and puts a set under `root['a']['_']`. Then
    `setdefault` at search_engine.py:61 hands back that set for the slice `a_`, and the
    next call on it fails.
  - `make_trie` alone does not fail on such a word when the prefix was not inserted before.
- SearchEngine.ParseStore.ParseAndInsert: requires that no input line contains `'_'`.
  This is stronger than what the program needs.
  - A line whose tokens hold `'_'` only as their first character, such as `_id`, is built
    without error. The slices `_`, `_i` and `_id` become a child dict under the root's
    `'_'` key, and that dict holds both a marker and children.
  - On such an index the program answers most queries correctly. But the empty query
    returns that root dict at search_engine.py:74, and `result_set.update` then adds its
    keys (`'_'`, `'i'`) as if they were lines.
  - The model does not cover these inputs.
- Trie.MakeTrie: the trie is a value, so the updated trie is returned instead of being
  changed in place. Aliasing between nodes is therefore not captured.
- Trie.MakeTrie: the inner loop over a word's characters is the recursion of `Insert`.
- Trie.SearchTrie: the loop over the query's characters is the recursion of `Descend`.
  The program's `[]` result and its empty set are both the empty set here.
- Trie.SearchTrie: does not itself model the `TypeError` that `search_trie` raises when
  a query steps through the marker into a set of lines and the next character is in
  that set. `Trie.SearchTrieRaises` states that case, and `SearchEngine.ParseStore.Search`
  returns the failure before taking any lookup.
- Trie.SearchTrieRaises: assumes a trie whose nodes have no `'_'` child, as every trie
  built from input without `'_'` is. Shards from the directory listing are taken as given.
- Encoding is not modelled: a line is a sequence of characters. Python 2 strips and
  splits bytes.
