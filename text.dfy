/** The three Python 2 string builtins the indexer relies on: str.strip() with no argument,
    str.split(' ') and str() applied to a non-negative int. */
module Text {

  /** The characters Python 2's str.strip() removes when called without an argument
      (those for which C's isspace holds): space, tab, newline, vertical tab, form feed
      and carriage return. */
  predicate IsSpace(c: char) {
    c == ' ' || c == '\t' || c == '\n' || c == '\r' || c as int == 0x0B || c as int == 0x0C
  }

  /** s consists of whitespace only. */
  predicate AllSpace(s: string)
    decreases |s|
  {
    s == [] || (IsSpace(s[0]) && AllSpace(s[1..]))
  }

  /** s without its leading whitespace. */
  function TrimStart(s: string): (r: string)
    ensures r == [] <==> AllSpace(s)
    ensures r != [] ==> !IsSpace(r[0])
    decreases |s|
  {
    if s != [] && IsSpace(s[0]) then TrimStart(s[1..]) else s
  }

  /** s without its trailing whitespace; non-empty when s starts with a character that is
      not whitespace. */
  function TrimEnd(s: string): (r: string)
    ensures r != [] ==> !IsSpace(r[|r| - 1])
    ensures s != [] && !IsSpace(s[0]) ==> r != []
    ensures r != [] ==> s != [] && r[0] == s[0]
    decreases |s|
  {
    if s != [] && IsSpace(s[|s| - 1]) then TrimEnd(s[..|s| - 1]) else s
  }

  /** str.strip(): s without the whitespace at either end; nothing is left exactly when s
      is all whitespace. StripRemovesEnds shows that nothing else is removed. */
  function Strip(s: string): (r: string)
    ensures r != [] ==> !IsSpace(r[0]) && !IsSpace(r[|r| - 1])
    ensures r == [] <==> AllSpace(s)
  {
    TrimEnd(TrimStart(s))
  }

  /** Strip(s) is a contiguous part of s, and what lies before and after it is whitespace:
      with the ensures of Strip this determines the result uniquely. */
  lemma StripRemovesEnds(s: string)
    ensures exists i, j | 0 <= i <= j <= |s| ::
              Strip(s) == s[i..j] && AllSpace(s[..i]) && AllSpace(s[j..])
  {
    TrimStartIsSuffix(s);
    var t := TrimStart(s);
    TrimEndIsPrefix(t);
    var i := |s| - |t|;
    var j := i + |TrimEnd(t)|;
    assert t[|TrimEnd(t)|..] == s[j..];
    assert Strip(s) == s[i..j];
  }

  /** AllSpace, character by character. */
  lemma {:induction false} AllSpaceIff(t: string)
    ensures AllSpace(t) <==> forall k | 0 <= k < |t| :: IsSpace(t[k])
    decreases |t|
  {
    if t != [] {
      AllSpaceIff(t[1..]);
      assert forall k | 0 < k < |t| :: t[1..][k - 1] == t[k];
    }
  }

  /** TrimStart stops at the first character that is not whitespace. */
  lemma {:induction false} TrimStartAt(s: string, i: nat)
    requires i <= |s| && AllSpace(s[..i]) && (i == |s| || !IsSpace(s[i]))
    ensures TrimStart(s) == s[i..]
    decreases i
  {
    if i > 0 {
      assert s[..i][0] == s[0];
      assert s[..i][1..] == s[1..][..i - 1];
      TrimStartAt(s[1..], i - 1);
    } else if s != [] {
      assert !IsSpace(s[0]);
    }
  }

  /** TrimEnd stops at the last character that is not whitespace. */
  lemma {:induction false} TrimEndAt(s: string, j: nat)
    requires j <= |s| && AllSpace(s[j..]) && (j == 0 || !IsSpace(s[j - 1]))
    ensures TrimEnd(s) == s[..j]
    decreases |s|
  {
    if j < |s| {
      var init := s[..|s| - 1];
      AllSpaceIff(s[j..]);
      AllSpaceIff(init[j..]);
      assert s[j..][|s| - 1 - j] == s[|s| - 1];
      assert forall k | 0 <= k < |init| - j :: init[j..][k] == s[j..][k];
      TrimEndAt(init, j);
      assert init[..j] == s[..j];
    } else if s != [] {
      assert !IsSpace(s[|s| - 1]);
    }
  }

  /** Conversely, a slice of s with whitespace only around it and no whitespace at its own
      ends is Strip(s). */
  lemma StripUnique(s: string, i: nat, j: nat)
    requires i <= j <= |s| && AllSpace(s[..i]) && AllSpace(s[j..])
    requires i < j ==> !IsSpace(s[i]) && !IsSpace(s[j - 1])
    ensures Strip(s) == s[i..j]
  {
    if i == j {
      AllSpaceIff(s[..i]);
      AllSpaceIff(s[j..]);
      AllSpaceIff(s);
      assert forall k | 0 <= k < |s| :: IsSpace(s[k]) by {
        forall k | 0 <= k < |s| ensures IsSpace(s[k]) {
          if k < i {
            assert s[..i][k] == s[k];
          } else {
            assert s[j..][k - j] == s[k];
          }
        }
      }
    } else {
      TrimStartAt(s, i);
      assert s[i..][j - i..] == s[j..];
      assert s[i..][j - i - 1] == s[j - 1];
      TrimEndAt(s[i..], j - i);
      assert s[i..][..j - i] == s[i..j];
    }
  }

  /** A whitespace character after whitespace is still whitespace. */
  lemma {:induction false} AllSpaceSnoc(s: string, c: char)
    requires AllSpace(s) && IsSpace(c)
    ensures AllSpace(s + [c])
    decreases |s|
  {
    if s != [] {
      AllSpaceSnoc(s[1..], c);
      assert (s + [c])[1..] == s[1..] + [c];
    }
  }

  /** What TrimStart keeps is a suffix of s, and what it drops is whitespace. */
  lemma {:induction false} TrimStartIsSuffix(s: string)
    ensures |TrimStart(s)| <= |s| && TrimStart(s) == s[|s| - |TrimStart(s)|..]
    ensures AllSpace(s[..|s| - |TrimStart(s)|])
    decreases |s|
  {
    if s != [] && IsSpace(s[0]) {
      TrimStartIsSuffix(s[1..]);
      var k := |s| - |TrimStart(s)|;
      assert s[..k][1..] == s[1..][..k - 1];
    } else {
      assert s[..0] == [];
    }
  }

  /** What TrimEnd keeps is a prefix of s, and what it drops is whitespace. */
  lemma {:induction false} TrimEndIsPrefix(s: string)
    ensures |TrimEnd(s)| <= |s| && TrimEnd(s) == s[..|TrimEnd(s)|]
    ensures AllSpace(s[|TrimEnd(s)|..])
    decreases |s|
  {
    if s != [] && IsSpace(s[|s| - 1]) {
      var init := s[..|s| - 1];
      TrimEndIsPrefix(init);
      var k := |TrimEnd(s)|;
      AllSpaceSnoc(init[k..], s[|s| - 1]);
      assert s[k..] == init[k..] + [s[|s| - 1]];
    } else {
      assert s[|s|..] == [];
    }
  }

  /** A character absent from s is absent from Strip(s). */
  lemma StripKeepsOut(s: string, c: char)
    requires c !in s
    ensures c !in Strip(s)
  {
    TrimStartIsSuffix(s);
    TrimEndIsPrefix(TrimStart(s));
  }

  /** The number of spaces in s. */
  function SpaceCount(s: string): nat {
    multiset(s)[' ']
  }

  /** The pieces joined back together with one space between neighbours. */
  function JoinSpaces(pieces: seq<string>): string
    decreases |pieces|
  {
    if |pieces| == 0 then ""
    else if |pieces| == 1 then pieces[0]
    else pieces[0] + [' '] + JoinSpaces(pieces[1..])
  }

  /** The position of the first space of s. */
  function FirstSpace(s: string): (i: nat)
    requires ' ' in s
    ensures i < |s| && s[i] == ' ' && ' ' !in s[..i]
    decreases |s|
  {
    if s[0] == ' ' then 0 else assert s == [s[0]] + s[1..]; 1 + FirstSpace(s[1..])
  }

  /** str.split(' '): s cut at every single space, so that two adjacent spaces give an empty
      piece. */
  function SplitSpaces(s: string): (r: seq<string>)
    ensures |r| >= 1
    ensures forall k | 0 <= k < |r| :: ' ' !in r[k]
    decreases |s|
  {
    if ' ' !in s then [s]
    else
      var i := FirstSpace(s);
      [s[..i]] + SplitSpaces(s[i + 1..])
  }

  /** split(' ') yields one piece more than there are spaces, empty pieces included. */
  lemma {:induction false} SplitSpacesCount(s: string)
    ensures |SplitSpaces(s)| == 1 + SpaceCount(s)
    decreases |s|
  {
    if ' ' in s {
      var i := FirstSpace(s);
      SplitSpacesCount(s[i + 1..]);
      assert s == s[..i] + [' '] + s[i + 1..];
      assert multiset(s) == multiset(s[..i]) + multiset{' '} + multiset(s[i + 1..]);
    } else {
      assert multiset(s)[' '] == 0;
    }
  }

  /** Joining the pieces of split(' ') with single spaces gives back s. */
  lemma {:induction false} JoinSplit(s: string)
    ensures JoinSpaces(SplitSpaces(s)) == s
    decreases |s|
  {
    if ' ' in s {
      var i := FirstSpace(s);
      var rest := SplitSpaces(s[i + 1..]);
      JoinSplit(s[i + 1..]);
      assert ([s[..i]] + rest)[1..] == rest;
      assert s == s[..i] + [' '] + s[i + 1..];
    }
  }

  /** A character absent from s is absent from every piece of its split. */
  lemma {:induction false} SplitKeepsOut(s: string, c: char)
    requires c !in s
    ensures forall k | 0 <= k < |SplitSpaces(s)| :: c !in SplitSpaces(s)[k]
    decreases |s|
  {
    if ' ' in s {
      var i := FirstSpace(s);
      assert s == s[..i] + [' '] + s[i + 1..];
      SplitKeepsOut(s[i + 1..], c);
    }
  }

  /** The character for a decimal digit. */
  function DigitChar(d: nat): (c: char)
    requires d < 10
    ensures '0' <= c <= '9'
  {
    (48 + d) as char
  }

  predicate AllDigits(s: string) {
    forall k | 0 <= k < |s| :: '0' <= s[k] <= '9'
  }

  /** str(n) for a non-negative int: its decimal digits, with no leading zero. */
  function Decimal(n: nat): (s: string)
    ensures |s| >= 1 && AllDigits(s)
    ensures s[0] == '0' ==> n == 0
    ensures n == 0 ==> s == "0"
    ensures s[0] == '0' ==> s == "0"
  {
    if n < 10 then [DigitChar(n)] else Decimal(n / 10) + [DigitChar(n % 10)]
  }

  /** The number a string of decimal digits denotes: the inverse of Decimal. */
  function DecimalValue(s: string): nat
    requires AllDigits(s)
    decreases |s|
  {
    if s == [] then 0 else DecimalValue(s[..|s| - 1]) * 10 + (s[|s| - 1] as int - 48)
  }

  lemma {:induction false} DecimalRoundTrip(n: nat)
    ensures DecimalValue(Decimal(n)) == n
  {
    if n >= 10 {
      DecimalRoundTrip(n / 10);
      var s := Decimal(n);
      assert s[..|s| - 1] == Decimal(n / 10);
    }
  }

  /** A digit string not starting with '0' denotes a positive number. */
  lemma {:induction false} DecimalValuePositive(s: string)
    requires AllDigits(s) && s != [] && s[0] != '0'
    ensures DecimalValue(s) >= 1
    decreases |s|
  {
    if |s| > 1 {
      DecimalValuePositive(s[..|s| - 1]);
    }
  }

  /** Every digit string without a leading zero, "0" included, is the rendering of the
      number it denotes: Decimal is onto those strings. */
  lemma {:induction false} DecimalOfValue(s: string)
    requires AllDigits(s) && s != [] && (s[0] == '0' ==> s == "0")
    ensures Decimal(DecimalValue(s)) == s
    decreases |s|
  {
    if |s| > 1 {
      var p := s[..|s| - 1];
      DecimalValuePositive(p);
      DecimalOfValue(p);
      var n := DecimalValue(s);
      assert n / 10 == DecimalValue(p) && n % 10 == s[|s| - 1] as int - 48;
      assert s == p + [s[|s| - 1]];
    }
  }

  /** Different non-negative ints have different decimal renderings. */
  lemma DecimalInjective(a: nat, b: nat)
    requires Decimal(a) == Decimal(b)
    ensures a == b
  {
    DecimalRoundTrip(a);
    DecimalRoundTrip(b);
  }
}
