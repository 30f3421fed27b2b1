/** The substring expander: generate_substrings, which lists every non-empty contiguous slice
    of a token. */
module Substrings {

  /** q is a non-empty contiguous run of the characters of tok. */
  predicate OccursIn(q: string, tok: string) {
    exists i, j | 0 <= i < j <= |tok| :: tok[i..j] == q
  }

  /** The slices of t that start at its first character, shortest first. */
  function Prefixes(t: string): (r: seq<string>) {
    seq(|t|, k requires 0 <= k < |t| => t[..k + 1])
  }

  /** The list generate_substrings returns: s[start..end + 1] for every
      0 <= start <= end < |s|, ordered by start and then by end. */
  function Slices(s: string): seq<string>
    decreases |s|
  {
    if s == [] then [] else Prefixes(s) + Slices(s[1..])
  }

  /** Where the slices that start at position start begin in Slices of a string of length
      len: len + (len - 1) + ... , start terms. */
  function Offset(len: nat, start: nat): nat
    requires start <= len
  {
    if start == 0 then 0 else len + Offset(len - 1, start - 1)
  }

  /** generate_substrings returns L * (L + 1) / 2 slices for a token of length L. */
  lemma {:induction false} SlicesCount(s: string)
    ensures 2 * |Slices(s)| == |s| * (|s| + 1)
    ensures |Slices(s)| == |s| * (|s| + 1) / 2
    decreases |s|
  {
    if s != [] {
      SlicesCount(s[1..]);
    }
  }

  /** The slice s[start..end + 1] sits at position Offset(|s|, start) + (end - start): the
      list is ordered by start, then by end. */
  lemma {:induction false} SlicesAt(s: string, start: nat, end: nat)
    requires start <= end < |s|
    ensures Offset(|s|, start) + (end - start) < |Slices(s)|
    ensures Slices(s)[Offset(|s|, start) + (end - start)] == s[start..end + 1]
    decreases |s|
  {
    if start == 0 {
      assert Slices(s)[end] == Prefixes(s)[end];
    } else {
      SlicesAt(s[1..], start - 1, end - 1);
      assert s[1..][start - 1..end] == s[start..end + 1];
    }
  }

  /** Every string in the list is a non-empty contiguous slice of s. */
  lemma {:induction false} SlicesOccur(q: string, s: string)
    requires q in Slices(s)
    ensures OccursIn(q, s)
    decreases |s|
  {
    if q in Prefixes(s) {
      var k :| 0 <= k < |s| && Prefixes(s)[k] == q;
      assert s[0..k + 1] == q;
    } else {
      SlicesOccur(q, s[1..]);
      var i, j :| 0 <= i < j <= |s[1..]| && s[1..][i..j] == q;
      assert s[i + 1..j + 1] == q;
    }
  }

  /** Every non-empty contiguous slice of s is in the list. */
  lemma {:induction false} OccurInSlices(q: string, s: string)
    requires OccursIn(q, s)
    ensures q in Slices(s)
    decreases |s|
  {
    var i, j :| 0 <= i < j <= |s| && s[i..j] == q;
    if i == 0 {
      assert Prefixes(s)[j - 1] == q;
    } else {
      assert s[1..][i - 1..j - 1] == q;
      OccurInSlices(q, s[1..]);
    }
  }

  /** A string is in the list exactly when it is a non-empty contiguous slice of s. */
  lemma InSlicesIff(q: string, s: string)
    ensures q in Slices(s) <==> OccursIn(q, s)
  {
    if q in Slices(s) {
      SlicesOccur(q, s);
    }
    if OccursIn(q, s) {
      OccurInSlices(q, s);
    }
  }

  /** A character absent from s is absent from each of its slices. */
  lemma SlicesKeepOut(s: string, c: char)
    requires c !in s
    ensures forall w | w in Slices(s) :: c !in w
  {
    forall w | w in Slices(s) ensures c !in w {
      InSlicesIff(w, s);
      var i, j :| 0 <= i < j <= |s| && s[i..j] == w;
    }
  }

  /** One more prefix: the first n + 1 prefixes of s[start..] end with s[start..start + n + 1]. */
  lemma PrefixesStep(s: string, start: nat, n: nat)
    requires start + n < |s|
    ensures Prefixes(s[start..])[..n + 1] == Prefixes(s[start..])[..n] + [s[start..start + n + 1]]
  {
    assert s[start..][..n + 1] == s[start..start + n + 1];
  }

  /** The slices of a non-empty t are those starting at its first character, then those of
      t[1..]: a list extended by the former is on its way to before + Slices(t). */
  lemma SlicesStep(t: string, before: seq<string>)
    requires t != []
    ensures (before + Prefixes(t)) + Slices(t[1..]) == before + Slices(t)
  {
    var p, rest := Prefixes(t), Slices(t[1..]);
    assert (before + p) + rest == before + (p + rest);
  }

  /** generate_substrings(strng), with its two nested loops. */
  method GenerateSubstrings(strng: string) returns (temp: seq<string>)
    ensures temp == Slices(strng)
  {
    temp := [];
    for start := 0 to |strng|
      invariant temp + Slices(strng[start..]) == Slices(strng)
    {
      ghost var before := temp;
      for end := start to |strng|
        invariant temp == before + Prefixes(strng[start..])[..end - start]
      {
        PrefixesStep(strng, start, end - start);
        temp := temp + [strng[start..end + 1]];
      }
      assert Prefixes(strng[start..])[..|strng| - start] == Prefixes(strng[start..]);
      SlicesStep(strng[start..], before);
      assert strng[start..][1..] == strng[start + 1..];
    }
  }
}
