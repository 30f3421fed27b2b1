/** The character trie: make_trie inserts words tagged with the line they came from, and
    search_trie descends one character at a time to the lines stored for a word.

    In the program a node is a dict whose keys are characters (mapping to child dicts) and
    the marker key '_' (mapping to the set of lines). Here the two are kept apart: a node
    has a map of children and, separately, an optional set of lines. A trie built from
    words without '_' has the same content in both layouts, and MakeTrie requires that.
    The program itself fails only on some words with a '_' after their first character:
    inserting such a word after its prefix up to the '_' makes setdefault hand back that
    prefix's set of lines where a dict is expected. A word whose only '_' is its first
    character is stored under the root's '_' key as a child, which the program builds
    without error and which this model does not cover.

    Lookups differ between the layouts for a query holding '_': the program's descent
    treats the marker key as a child and may step into a set of lines. SearchTrieRaises
    says when that ends in a TypeError; otherwise the program answers nothing, as
    SearchTrie does. */
module Trie {

  /** The key the program stores a node's set of lines under. */
  const FinishMarker: char := '_'

  datatype Option<T> = None | Some(value: T)

  datatype Node = Node(children: map<char, Node>, marker: Option<set<string>>)

  /** A fresh dict(). */
  const Empty: Node := Node(map[], None)

  /** The lines under a node's marker, or none when it has no marker. */
  function MarkerLines(t: Node): set<string> {
    if t.marker.Some? then t.marker.value else {}
  }

  /** The abstract content of a trie: every (word, line) pair it stores, found by
      enumerating the whole tree rather than by following one path. */
  ghost function Entries(t: Node): set<(string, string)> {
    (set l | l in MarkerLines(t) :: ("", l)) +
    (set c, p | c in t.children && p in Entries(t.children[c]) :: ([c] + p.0, p.1))
  }

  /** The (word, line) pairs that inserting every word of words with line adds. */
  ghost function WordEntries(words: seq<string>, line: string): set<(string, string)> {
    set w | w in words :: (w, line)
  }

  /** The node reached from t by following the characters of w, if every one of them has a
      child along the way. */
  function Descend(t: Node, w: string): (r: Option<Node>)
    ensures w != [] && r.Some? ==> w[0] in t.children
    decreases |w|
  {
    if w == [] then Some(t)
    else if w[0] in t.children then Descend(t.children[w[0]], w[1..])
    else None
  }

  /** search_trie(word, current): the lines under the marker of the node that word leads
      to, or nothing when a character has no child or the node has no marker. An empty
      list and an empty set are the same here: callers only take the union. */
  function SearchTrie(word: string, current: Node): (r: set<string>)
    ensures word != [] && word[0] !in current.children ==> r == {}
  {
    match Descend(current, word)
    case None => {}
    case Some(n) => MarkerLines(n)
  }

  /** search_trie(word, current) raises TypeError on a trie whose nodes have no '_' child.
      At the first '_' of word, at position k, the descent reaches the node for word[..k]
      and finds the marker key, so current becomes that node's set of lines. The next
      character, or the marker itself when word ends there, is then looked up in that set;
      when it is one of the lines, subscripting the set fails. In every other case with
      a '_' the program returns []. */
  predicate SearchTrieRaises(word: string, current: Node)
    ensures SearchTrieRaises(word, current) ==> FinishMarker in word
  {
    exists k | 0 <= k < |word| ::
      word[k] == FinishMarker && FinishMarker !in word[..k] &&
      [if k + 1 < |word| then word[k + 1] else FinishMarker] in SearchTrie(word[..k], current)
  }

  /** The body of make_trie's loop for one word: walk or create one child per character
      of w (setdefault(char, {})), then add line to the end node's set of lines
      (setdefault(FINISH_MARKER, set()).add(line)). */
  function Insert(t: Node, w: string, line: string): (r: Node)
    ensures w == [] ==> r.children == t.children && MarkerLines(r) == MarkerLines(t) + {line}
    ensures w != [] ==> r.marker == t.marker && r.children.Keys == t.children.Keys + {w[0]}
    ensures w != [] ==> forall c | c in t.children && c != w[0] :: r.children[c] == t.children[c]
    decreases |w|
  {
    if w == [] then Node(t.children, Some(MarkerLines(t) + {line}))
    else
      var child := if w[0] in t.children then t.children[w[0]] else Empty;
      Node(t.children[w[0] := Insert(child, w[1..], line)], t.marker)
  }

  /** Inserting each word of words in turn. */
  function InsertAll(t: Node, words: seq<string>, line: string): (r: Node)
    ensures t.children.Keys <= r.children.Keys
    ensures MarkerLines(t) <= MarkerLines(r)
    decreases |words|
  {
    if words == [] then t
    else Insert(InsertAll(t, words[..|words| - 1], line), words[|words| - 1], line)
  }

  /** Following u and then v is following u + v. */
  lemma {:induction false} DescendConcat(t: Node, u: string, v: string)
    ensures Descend(t, u + v) == (match Descend(t, u)
                                  case None => None
                                  case Some(n) => Descend(n, v))
    decreases |u|
  {
    if u == [] {
      assert u + v == v;
    } else {
      assert (u + v)[0] == u[0] && (u + v)[1..] == u[1..] + v;
      if u[0] in t.children {
        DescendConcat(t.children[u[0]], u[1..], v);
      }
    }
  }

  /** search_trie returns nothing as soon as a character of the word has no child. */
  lemma SearchTrieMissingChild(t: Node, word: string, k: nat)
    requires k < |word| && Descend(t, word[..k]).Some?
    requires word[k] !in Descend(t, word[..k]).value.children
    ensures SearchTrie(word, t) == {}
  {
    DescendConcat(t, word[..k], word[k..]);
    assert word[..k] + word[k..] == word;
  }

  /** The empty trie stores nothing. */
  lemma SearchEmpty(word: string)
    ensures SearchTrie(word, Empty) == {}
  {
  }

  /** Lookup and enumeration agree: line is in search_trie(word, t) exactly when (word, line)
      is stored somewhere in t. */
  lemma {:induction false} SearchTrieIsEntries(t: Node, word: string, line: string)
    ensures line in SearchTrie(word, t) <==> (word, line) in Entries(t)
    decreases |word|
  {
    if word == [] {
      assert forall c, p | c in t.children && p in Entries(t.children[c]) :: ([c] + p.0) != word;
    } else {
      var c := word[0];
      if c in t.children {
        SearchTrieIsEntries(t.children[c], word[1..], line);
        assert [c] + word[1..] == word;
        if (word, line) in Entries(t) {
          var c', p :| c' in t.children && p in Entries(t.children[c']) && ([c'] + p.0, p.1) == (word, line);
          assert c' == word[0] && p.0 == word[1..];
        }
      }
    }
  }

  /** Inserting (w, line) adds line to the lookup of w and changes no other lookup. */
  lemma {:induction false} InsertSearch(t: Node, w: string, line: string, q: string)
    ensures SearchTrie(q, Insert(t, w, line)) == SearchTrie(q, t) + (if q == w then {line} else {})
    decreases |w|
  {
    if w != [] && q != [] && q[0] == w[0] {
      var child := if w[0] in t.children then t.children[w[0]] else Empty;
      InsertSearch(child, w[1..], line, q[1..]);
      assert q == w <==> q[1..] == w[1..] by {
        assert q == [q[0]] + q[1..] && w == [w[0]] + w[1..];
      }
    }
  }

  /** make_trie only adds the pair (w, line) to the trie's content. */
  lemma InsertEntries(t: Node, w: string, line: string)
    ensures Entries(Insert(t, w, line)) == Entries(t) + {(w, line)}
  {
    forall p | true
      ensures p in Entries(Insert(t, w, line)) <==> p in Entries(t) + {(w, line)}
    {
      SearchTrieIsEntries(Insert(t, w, line), p.0, p.1);
      SearchTrieIsEntries(t, p.0, p.1);
      InsertSearch(t, w, line, p.0);
    }
  }

  /** Inserting the same word with the same line twice leaves the trie as one insertion
      did: the end node's lines form a set. */
  lemma {:induction false} InsertIdempotent(t: Node, w: string, line: string)
    ensures Insert(Insert(t, w, line), w, line) == Insert(t, w, line)
    decreases |w|
  {
    if w != [] {
      var child := if w[0] in t.children then t.children[w[0]] else Empty;
      InsertIdempotent(child, w[1..], line);
    }
  }

  /** After inserting all of words with line, the lookup of q gains line exactly when q is
      one of the words, and nothing else. */
  lemma {:induction false} InsertAllSearch(t: Node, words: seq<string>, line: string, q: string)
    ensures SearchTrie(q, InsertAll(t, words, line))
         == SearchTrie(q, t) + (if q in words then {line} else {})
    decreases |words|
  {
    if words != [] {
      var init := words[..|words| - 1];
      InsertAllSearch(t, init, line, q);
      InsertSearch(InsertAll(t, init, line), words[|words| - 1], line, q);
      assert words == init + [words[|words| - 1]];
    }
  }

  /** The content of the trie after inserting all of words with line. */
  lemma InsertAllEntries(t: Node, words: seq<string>, line: string)
    ensures Entries(InsertAll(t, words, line)) == Entries(t) + WordEntries(words, line)
  {
    forall p | true
      ensures p in Entries(InsertAll(t, words, line)) <==> p in Entries(t) + WordEntries(words, line)
    {
      SearchTrieIsEntries(InsertAll(t, words, line), p.0, p.1);
      SearchTrieIsEntries(t, p.0, p.1);
      InsertAllSearch(t, words, line, p.0);
    }
  }

  /** make_trie(words, parent_string, file_db). The trie is a value here, so the updated
      trie is returned rather than changed in place; the program's inner loop over the
      characters of a word is the recursion of Insert. */
  method MakeTrie(words: seq<string>, parentString: string, fileDb: Node) returns (r: Node)
    requires forall k | 0 <= k < |words| :: FinishMarker !in words[k]
    ensures r == InsertAll(fileDb, words, parentString)
    ensures forall q :: SearchTrie(q, r)
                     == SearchTrie(q, fileDb) + (if q in words then {parentString} else {})
    ensures Entries(r) == Entries(fileDb) + WordEntries(words, parentString)
  {
    r := fileDb;
    for k := 0 to |words|
      invariant r == InsertAll(fileDb, words[..k], parentString)
    {
      assert words[..k + 1][..k] == words[..k];
      r := Insert(r, words[k], parentString);
    }
    assert words[..|words|] == words;
    forall q | true
      ensures SearchTrie(q, r) == SearchTrie(q, fileDb) + (if q in words then {parentString} else {})
    {
      InsertAllSearch(fileDb, words, parentString, q);
    }
    InsertAllEntries(fileDb, words, parentString);
  }
}
