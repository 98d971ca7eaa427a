/** The text normalizer `toLowerCaseWithRemovePunctuations`: it deletes
    every `.` `?` `!` `,` `:` `;` from a string and lower-cases what is left.

    A string is a `seq<char>`. Case folding is ASCII only (`A`-`Z` to `a`-`z`),
    one character at a time; the length, position and concatenation results
    below depend on that. */
module UiServices {

  /** The six characters of the regular-expression class `[\.\?\!\,\:\;]`. */
  predicate IsPunctuation(c: char) {
    c == '.' || c == '?' || c == '!' || c == ',' || c == ':' || c == ';'
  }

  predicate IsUpper(c: char) {
    'A' <= c <= 'Z'
  }

  /** A string the normalizer has nothing left to do to. */
  predicate IsNormalized(s: seq<char>) {
    forall i :: 0 <= i < |s| ==> !IsPunctuation(s[i]) && !IsUpper(s[i])
  }

  /** ASCII lower-casing of one character. */
  function ToLowerChar(c: char): (d: char)
    ensures !IsUpper(d)
    ensures IsUpper(c) ==> 'a' <= d <= 'z' && d as int - 'a' as int == c as int - 'A' as int
    ensures !IsUpper(c) ==> d == c
    ensures IsPunctuation(d) <==> IsPunctuation(c)
  {
    if IsUpper(c) then (c as int + ('a' as int - 'A' as int)) as char else c
  }

  /** `text.replace(/[\.\?\!\,\:\;]/g, '')`: the `g` flag deletes every occurrence. */
  function RemoveAllPunctuations(s: seq<char>): (r: seq<char>)
    ensures |r| <= |s|
    ensures forall i :: 0 <= i < |r| ==> !IsPunctuation(r[i])
  {
    if s == [] then []
    else if IsPunctuation(s[0]) then RemoveAllPunctuations(s[1..])
    else [s[0]] + RemoveAllPunctuations(s[1..])
  }

  /** `toLowerCase()`, restricted to ASCII letters: a character-wise map. */
  function ToLowerCase(s: seq<char>): (r: seq<char>)
    ensures |r| == |s|
    ensures forall i :: 0 <= i < |r| ==> !IsUpper(r[i])
  {
    seq(|s|, i requires 0 <= i < |s| => ToLowerChar(s[i]))
  }

  /** `toLowerCaseWithRemovePunctuations(text)`: strip, then lower-case. */
  function Normalize(s: seq<char>): (r: seq<char>)
    ensures IsNormalized(r)
    ensures |r| <= |s|
  {
    ToLowerCase(RemoveAllPunctuations(s))
  }

  /** How many of the six characters occur in `s`, counted through its multiset. */
  function PunctuationCount(s: seq<char>): nat {
    var m := multiset(s);
    m['.'] + m['?'] + m['!'] + m[','] + m[':'] + m[';']
  }

  /** Independent reference: what one character becomes, and the concatenation of that over the string. */
  function NormalizeChar(c: char): seq<char> {
    if IsPunctuation(c) then [] else [ToLowerChar(c)]
  }

  function NormalizeEach(s: seq<char>): seq<char> {
    if s == [] then [] else NormalizeChar(s[0]) + NormalizeEach(s[1..])
  }

  /** Position in the output of the character at index `i` of the input. */
  function Rank(s: seq<char>, i: nat): nat
    requires i <= |s|
  {
    |Normalize(s[..i])|
  }

  // ---------------------------------------------------------------------------
  // Properties of the normalizer
  // ---------------------------------------------------------------------------

  /** Every one of the six characters is gone from the output, wherever it stood. */
  lemma NoPunctuationInOutput(s: seq<char>)
    ensures forall i :: 0 <= i < |Normalize(s)| ==> !IsPunctuation(Normalize(s)[i])
    ensures forall c :: IsPunctuation(c) ==> c !in Normalize(s)
  { }

  /** No upper-case ASCII letter is left, and lower-casing the output changes nothing. */
  lemma NoUpperInOutput(s: seq<char>)
    ensures forall i :: 0 <= i < |Normalize(s)| ==> !IsUpper(Normalize(s)[i])
    ensures ToLowerCase(Normalize(s)) == Normalize(s)
  { }

  /** The output is exactly the normalized form: no punctuation, no upper case. */
  lemma OutputIsNormalized(s: seq<char>)
    ensures IsNormalized(Normalize(s))
  { }

  /** Stripping deletes every occurrence of the six characters and keeps
      every occurrence of every other character. */
  lemma {:induction false} RemoveCounts(s: seq<char>)
    ensures forall c :: multiset(RemoveAllPunctuations(s))[c] == if IsPunctuation(c) then 0 else multiset(s)[c]
  {
    if s != [] {
      RemoveCounts(s[1..]);
      assert s == [s[0]] + s[1..];
      assert multiset(s) == multiset([s[0]]) + multiset(s[1..]);
      if !IsPunctuation(s[0]) {
        assert multiset(RemoveAllPunctuations(s)) == multiset([s[0]]) + multiset(RemoveAllPunctuations(s[1..]));
      }
    }
  }

  /** A character survives stripping exactly when it is not one of the six. */
  lemma RemoveMembers(s: seq<char>)
    ensures forall c :: c in RemoveAllPunctuations(s) <==> c in s && !IsPunctuation(c)
  { }

  /** Stripping works piecewise over a concatenation. */
  lemma {:induction false} RemoveDistributes(a: seq<char>, b: seq<char>)
    ensures RemoveAllPunctuations(a + b) == RemoveAllPunctuations(a) + RemoveAllPunctuations(b)
    decreases |a|
  {
    if a == [] {
      assert a + b == b;
    } else {
      assert (a + b)[0] == a[0];
      assert (a + b)[1..] == a[1..] + b;
      RemoveDistributes(a[1..], b);
    }
  }

  /** Lower-casing works piecewise over a concatenation. */
  lemma LowerDistributes(a: seq<char>, b: seq<char>)
    ensures ToLowerCase(a + b) == ToLowerCase(a) + ToLowerCase(b)
  { }

  /** Normalizing a concatenation normalizes each part: nothing is moved across the seam. */
  lemma NormalizeDistributes(a: seq<char>, b: seq<char>)
    ensures Normalize(a + b) == Normalize(a) + Normalize(b)
  {
    RemoveDistributes(a, b);
    LowerDistributes(RemoveAllPunctuations(a), RemoveAllPunctuations(b));
  }

  /** The normalizer agrees with the character-by-character reference:
      each of the six characters becomes nothing, every other character
      becomes its lower-case form, in the original order. */
  lemma {:induction false} NormalizeIsCharwise(s: seq<char>)
    ensures Normalize(s) == NormalizeEach(s)
  {
    if s != [] {
      NormalizeIsCharwise(s[1..]);
      assert s == [s[0]] + s[1..];
      NormalizeDistributes([s[0]], s[1..]);
      assert RemoveAllPunctuations([s[0]]) == if IsPunctuation(s[0]) then [] else [s[0]];
      assert Normalize([s[0]]) == NormalizeChar(s[0]);
    }
  }

  /** Each kept character lands, lower-cased, at its rank; the rank is
      strictly increasing over kept characters, so their order is preserved. */
  lemma KeptCharacterAtRank(s: seq<char>, i: nat)
    requires i < |s| && !IsPunctuation(s[i])
    ensures Rank(s, i) < |Normalize(s)|
    ensures Normalize(s)[Rank(s, i)] == ToLowerChar(s[i])
  {
    assert s == s[..i] + s[i..];
    NormalizeDistributes(s[..i], s[i..]);
    assert s[i..] == [s[i]] + s[i + 1..];
    NormalizeDistributes([s[i]], s[i + 1..]);
    assert RemoveAllPunctuations([s[i]]) == [s[i]];
  }

  lemma RankOrdered(s: seq<char>, i: nat, j: nat)
    requires i < j <= |s| && !IsPunctuation(s[i])
    ensures Rank(s, i) < Rank(s, j)
  {
    assert s[..j] == s[..i] + s[i..j];
    NormalizeDistributes(s[..i], s[i..j]);
    assert s[i..j] == [s[i]] + s[i + 1..j];
    NormalizeDistributes([s[i]], s[i + 1..j]);
    assert RemoveAllPunctuations([s[i]]) == [s[i]];
  }

  /** A character dropped by the normalizer takes no place in the output. */
  lemma DroppedCharacterHasNoRank(s: seq<char>, i: nat)
    requires i < |s| && IsPunctuation(s[i])
    ensures Rank(s, i + 1) == Rank(s, i)
  {
    assert s[..i + 1] == s[..i] + [s[i]];
    NormalizeDistributes(s[..i], [s[i]]);
    assert RemoveAllPunctuations([s[i]]) == [];
  }

  /** A character appears in the output exactly when some non-punctuation input character lower-cases to it. */
  lemma OutputCharacters(s: seq<char>, c: char)
    ensures c in Normalize(s) <==> exists i :: 0 <= i < |s| && !IsPunctuation(s[i]) && ToLowerChar(s[i]) == c
  {
    var r := RemoveAllPunctuations(s);
    RemoveMembers(s);
    if c in Normalize(s) {
      var k :| 0 <= k < |r| && Normalize(s)[k] == c;
      assert r[k] in s;
      var i :| 0 <= i < |s| && s[i] == r[k];
    }
    if i :| 0 <= i < |s| && !IsPunctuation(s[i]) && ToLowerChar(s[i]) == c {
      assert s[i] in r;
      var k :| 0 <= k < |r| && r[k] == s[i];
      assert Normalize(s)[k] == c;
    }
  }

  /** A normalized string is left as it is. */
  lemma {:induction false} NormalizedIsFixed(t: seq<char>)
    requires IsNormalized(t)
    ensures Normalize(t) == t
  {
    if t != [] {
      assert IsNormalized(t[1..]) by {
        forall i | 0 <= i < |t[1..]| ensures !IsPunctuation(t[1..][i]) && !IsUpper(t[1..][i]) {
          assert t[1..][i] == t[i + 1];
        }
      }
      NormalizedIsFixed(t[1..]);
      assert t == [t[0]] + t[1..];
      NormalizeDistributes([t[0]], t[1..]);
      assert RemoveAllPunctuations([t[0]]) == [t[0]];
      assert ToLowerCase([t[0]]) == [t[0]];
    }
  }

  /** The fixed points of the normalizer are exactly the normalized strings. */
  lemma FixedPoints(t: seq<char>)
    ensures Normalize(t) == t <==> IsNormalized(t)
  {
    if IsNormalized(t) {
      NormalizedIsFixed(t);
    }
    if Normalize(t) == t {
      OutputIsNormalized(t);
    }
  }

  /** Normalizing twice is the same as normalizing once. */
  lemma Idempotent(s: seq<char>)
    ensures Normalize(Normalize(s)) == Normalize(s)
  {
    OutputIsNormalized(s);
    NormalizedIsFixed(Normalize(s));
  }

  /** The empty string and strings made only of the six characters normalize to the empty string. */
  lemma EmptyOutput(s: seq<char>)
    ensures Normalize([]) == []
    ensures (forall i :: 0 <= i < |s| ==> IsPunctuation(s[i])) ==> Normalize(s) == []
  {
    if forall i :: 0 <= i < |s| ==> IsPunctuation(s[i]) {
      if Normalize(s) != [] {
        var r := RemoveAllPunctuations(s);
        RemoveMembers(s);
        assert r[0] in s;
      }
    }
  }

  /** Output length is input length less the occurrences of the six characters. */
  lemma {:induction false} OutputLength(s: seq<char>)
    ensures |Normalize(s)| == |s| - PunctuationCount(s)
    ensures |Normalize(s)| <= |s|
  {
    if s != [] {
      OutputLength(s[1..]);
      assert s == [s[0]] + s[1..];
      assert multiset(s) == multiset([s[0]]) + multiset(s[1..]);
      NormalizeDistributes([s[0]], s[1..]);
      assert RemoveAllPunctuations([s[0]]) == if IsPunctuation(s[0]) then [] else [s[0]];
    }
  }

  /** Lower-casing first and stripping second gives the same string. */
  lemma {:induction false} StepsCommute(s: seq<char>)
    ensures RemoveAllPunctuations(ToLowerCase(s)) == Normalize(s)
  {
    if s != [] {
      StepsCommute(s[1..]);
      assert s == [s[0]] + s[1..];
      LowerDistributes([s[0]], s[1..]);
      RemoveDistributes(ToLowerCase([s[0]]), ToLowerCase(s[1..]));
      NormalizeDistributes([s[0]], s[1..]);
      assert ToLowerCase([s[0]]) == [ToLowerChar(s[0])];
      assert RemoveAllPunctuations([s[0]]) == if IsPunctuation(s[0]) then [] else [s[0]];
      assert RemoveAllPunctuations([ToLowerChar(s[0])]) == if IsPunctuation(s[0]) then [] else [ToLowerChar(s[0])];
    }
  }

  /** A worked example: `"Hello, World!"` becomes `"hello world"`.
      The input is a parameter fixed by the `requires`, so that the proof
      unfolds the example in four small pieces, which keeps it cheap. */
  lemma HelloWorld(s: seq<char>)
    requires s == "Hello, World!"
    ensures Normalize(s) == "hello world"
  {
    assert s == "Hel" + "lo," + " Wo" + "rld!";
    NormalizeDistributes("Hel" + "lo," + " Wo", "rld!");
    NormalizeDistributes("Hel" + "lo,", " Wo");
    NormalizeDistributes("Hel", "lo,");
    PieceHel();
    PieceLo();
    PieceWo();
    PieceRld();
  }

  // The four pieces of the example, each small enough to unfold directly.

  lemma PieceHel() ensures Normalize("Hel") == "hel" { }

  lemma PieceLo() ensures Normalize("lo,") == "lo" { }

  lemma PieceWo() ensures Normalize(" Wo") == " wo" { }

  lemma PieceRld() ensures Normalize("rld!") == "rld" { }
}
