/** The generator of candidate alphabets for hint cracking (`getCharacterCombinations`):
    it removes one character at a time from the alphabet, at every position in turn,
    until the candidate has the password length, and appends every such candidate to a
    list. Different removal orders reach the same candidate; duplicates are kept. */
module CharacterCombinations {

  /** `s` with position `i` left out. */
  function Drop(s: seq<char>, i: nat): (r: seq<char>)
    requires i < |s|
    ensures |r| == |s| - 1
    ensures forall k :: 0 <= k < i ==> r[k] == s[k]
    ensures forall k :: i <= k < |r| ==> r[k] == s[k + 1]
  {
    s[..i] + s[i + 1..]
  }

  /** Everything one call of the generator on `alphabet` appends to its list. */
  function Combinations(alphabet: seq<char>, len: int): seq<seq<char>>
    decreases |alphabet|, 1
  {
    CombinationsBelow(alphabet, len, |alphabet|)
  }

  /** What the first `i` rounds of the generator's outer loop append: round `k` drops
      position `k`, then keeps the result if it is short enough and recurses on it otherwise. */
  function CombinationsBelow(alphabet: seq<char>, len: int, i: nat): seq<seq<char>>
    requires i <= |alphabet|
    decreases |alphabet|, 0, i
  {
    if i == 0 then []
    else
      var candidate := Drop(alphabet, i - 1);
      CombinationsBelow(alphabet, len, i - 1)
      + (if |candidate| == len then [candidate] else Combinations(candidate, len))
  }

  /** The generator as written: a fresh `char` array of length |possibleCharacters| - 1 is
      refilled for every dropped position and either copied into the list or recursed on.
      `ok` is false where the source raises NegativeArraySizeException: the recursion only
      stops at the password length, so a length outside [0, |alphabet|) runs down to the
      empty alphabet and fails allocating an array of length -1. The exception arrives
      before anything has been appended, so `list` still extends `dataList` as specified. */
  method GetCharacterCombinations(possibleCharacters: seq<char>, passwordLength: int, dataList: seq<seq<char>>)
    returns (ok: bool, list: seq<seq<char>>)
    ensures ok <==> 0 <= passwordLength < |possibleCharacters|
    ensures list == dataList + Combinations(possibleCharacters, passwordLength)
    decreases |possibleCharacters|
  {
    list := dataList;
    var n := |possibleCharacters|;
    if n == 0 {
      CombinationsOutOfRange(possibleCharacters, passwordLength);
      return false, list;
    }
    var combination := new char[n - 1];
    var i := 0;
    while i < n
      invariant 0 <= i <= n
      invariant 0 < i ==> 0 <= passwordLength < n
      invariant list == dataList + CombinationsBelow(possibleCharacters, passwordLength, i)
    {
      var combinationIndex := 0;
      var j := 0;
      while j < n
        invariant 0 <= j <= n
        invariant combinationIndex == if j <= i then j else j - 1
        invariant forall k :: 0 <= k < combinationIndex ==>
                    combination[k] == Drop(possibleCharacters, i)[k]
      {
        if j != i {
          combination[combinationIndex] := possibleCharacters[j];
          combinationIndex := combinationIndex + 1;
        }
        j := j + 1;
      }
      assert combination[..] == Drop(possibleCharacters, i);
      if combination.Length == passwordLength {
        list := list + [combination[..]];
      } else {
        var recursionOk;
        recursionOk, list := GetCharacterCombinations(combination[..], passwordLength, list);
        if !recursionOk {
          CombinationsOutOfRange(combination[..], passwordLength);
          CombinationsOutOfRange(possibleCharacters, passwordLength);
          return false, list;
        }
      }
      i := i + 1;
    }
    return true, list;
  }

  /** For a length the generator cannot reach, nothing is appended. */
  lemma {:induction false} CombinationsOutOfRange(alphabet: seq<char>, len: int)
    requires !(0 <= len < |alphabet|)
    ensures Combinations(alphabet, len) == []
    decreases |alphabet|
  {
    CombinationsBelowOutOfRange(alphabet, len, |alphabet|);
  }

  lemma {:induction false} CombinationsBelowOutOfRange(alphabet: seq<char>, len: int, i: nat)
    requires i <= |alphabet|
    requires !(0 <= len < |alphabet|)
    ensures CombinationsBelow(alphabet, len, i) == []
    decreases |alphabet|, i
  {
    if i > 0 {
      CombinationsBelowOutOfRange(alphabet, len, i - 1);
      CombinationsOutOfRange(Drop(alphabet, i - 1), len);
    }
  }

  /** Every appended candidate has exactly the password length. */
  lemma {:induction false} CombinationLengths(alphabet: seq<char>, len: int)
    requires 0 <= len < |alphabet|
    ensures forall c :: c in Combinations(alphabet, len) ==> |c| == len
    decreases |alphabet|
  {
    CombinationsBelowLengths(alphabet, len, |alphabet|);
  }

  lemma {:induction false} CombinationsBelowLengths(alphabet: seq<char>, len: int, i: nat)
    requires i <= |alphabet|
    requires 0 <= len < |alphabet|
    ensures forall c :: c in CombinationsBelow(alphabet, len, i) ==> |c| == len
    decreases |alphabet|, i
  {
    if i > 0 {
      CombinationsBelowLengths(alphabet, len, i - 1);
      var candidate := Drop(alphabet, i - 1);
      if |candidate| != len {
        CombinationLengths(candidate, len);
      }
    }
  }

  /** `idx` lists, in strictly increasing order, the positions of `s` that make up `c`. */
  ghost predicate Embeds(idx: seq<int>, c: seq<char>, s: seq<char>) {
    && |idx| == |c|
    && (forall k :: 0 <= k < |idx| ==> 0 <= idx[k] < |s| && c[k] == s[idx[k]])
    && (forall k, m :: 0 <= k < m < |idx| ==> idx[k] < idx[m])
  }

  /** `c` is `s` with some characters left out and the order of the rest kept. */
  ghost predicate IsSubsequence(c: seq<char>, s: seq<char>) {
    exists idx :: Embeds(idx, c, s)
  }

  lemma DropEmbeds(s: seq<char>, i: nat)
    requires i < |s|
    ensures IsSubsequence(Drop(s, i), s)
  {
    var idx := seq(|s| - 1, k => if k < i then k else k + 1);
    assert Embeds(idx, Drop(s, i), s);
  }

  lemma SubsequenceTransitive(c: seq<char>, d: seq<char>, s: seq<char>)
    requires IsSubsequence(c, d) && IsSubsequence(d, s)
    ensures IsSubsequence(c, s)
  {
    var inner :| Embeds(inner, c, d);
    var outer :| Embeds(outer, d, s);
    var idx := seq(|inner|, k requires 0 <= k < |inner| => outer[inner[k]]);
    assert Embeds(idx, c, s);
  }

  /** Every appended candidate keeps the alphabet's characters in their order. */
  lemma {:induction false} CombinationsAreSubsequences(alphabet: seq<char>, len: int)
    ensures forall c :: c in Combinations(alphabet, len) ==> IsSubsequence(c, alphabet)
    decreases |alphabet|
  {
    CombinationsBelowAreSubsequences(alphabet, len, |alphabet|);
  }

  lemma {:induction false} CombinationsBelowAreSubsequences(alphabet: seq<char>, len: int, i: nat)
    requires i <= |alphabet|
    ensures forall c :: c in CombinationsBelow(alphabet, len, i) ==> IsSubsequence(c, alphabet)
    decreases |alphabet|, i
  {
    if i > 0 {
      CombinationsBelowAreSubsequences(alphabet, len, i - 1);
      var candidate := Drop(alphabet, i - 1);
      DropEmbeds(alphabet, i - 1);
      if |candidate| != len {
        CombinationsAreSubsequences(candidate, len);
        forall c | c in Combinations(candidate, len)
          ensures IsSubsequence(c, alphabet)
        {
          SubsequenceTransitive(c, candidate, alphabet);
        }
      }
    }
  }

  /** n * (n - 1) * ... * (len + 1): the number of ways to remove n - len characters one by one. */
  function Arrangements(n: nat, len: nat): nat
    decreases n
  {
    if n <= len then 1 else n * Arrangements(n - 1, len)
  }

  /** The generator appends |alphabet| * (|alphabet| - 1) * ... * (len + 1) candidates:
      one per removal order, with no duplicate filtered out. */
  lemma {:induction false} CombinationCount(alphabet: seq<char>, len: int)
    requires 0 <= len < |alphabet|
    ensures |Combinations(alphabet, len)| == Arrangements(|alphabet|, len)
    decreases |alphabet|
  {
    CombinationsBelowCount(alphabet, len, |alphabet|);
  }

  lemma {:induction false} CombinationsBelowCount(alphabet: seq<char>, len: int, i: nat)
    requires i <= |alphabet|
    requires 0 <= len < |alphabet|
    ensures |CombinationsBelow(alphabet, len, i)| == i * Arrangements(|alphabet| - 1, len)
    decreases |alphabet|, i
  {
    if i > 0 {
      CombinationsBelowCount(alphabet, len, i - 1);
      var candidate := Drop(alphabet, i - 1);
      var per := Arrangements(|alphabet| - 1, len);
      var round := if |candidate| == len then [candidate] else Combinations(candidate, len);
      if |candidate| != len {
        CombinationCount(candidate, len);
      }
      assert |round| == per;
      assert CombinationsBelow(alphabet, len, i) == CombinationsBelow(alphabet, len, i - 1) + round;
      MulSucc(i - 1, per);
    }
  }

  lemma MulSucc(a: nat, b: nat)
    ensures a * b + b == (a + 1) * b
  {
  }

  /** With a password one character shorter than the alphabet, the generator appends
      exactly |alphabet| candidates, the i-th being the alphabet without position i. */
  lemma {:induction false} CombinationsDropOne(alphabet: seq<char>)
    requires |alphabet| > 0
    ensures Combinations(alphabet, |alphabet| - 1)
         == seq(|alphabet|, i requires 0 <= i < |alphabet| => Drop(alphabet, i))
  {
    CombinationsBelowDropOne(alphabet, |alphabet|);
  }

  lemma {:induction false} CombinationsBelowDropOne(alphabet: seq<char>, i: nat)
    requires 0 < |alphabet| && i <= |alphabet|
    ensures CombinationsBelow(alphabet, |alphabet| - 1, i)
         == seq(i, k requires 0 <= k < i => Drop(alphabet, k))
  {
    if i > 0 {
      CombinationsBelowDropOne(alphabet, i - 1);
    }
  }

  /** The four-letter example: alphabet ABCD, password length 3. */
  lemma CombinationsOfABCD()
    ensures Combinations("ABCD", 3) == ["BCD", "ACD", "ABD", "ABC"]
  {
    CombinationsDropOne("ABCD");
    assert Drop("ABCD", 0) == "BCD";
    assert Drop("ABCD", 1) == "ACD";
    assert Drop("ABCD", 2) == "ABD";
    assert Drop("ABCD", 3) == "ABC";
  }

  /** Duplicates are kept: from ABC down to one character, every letter is reached twice. */
  lemma CombinationsOfABCKeepDuplicates()
    ensures Combinations("ABC", 1) == ["C", "B", "C", "A", "B", "A"]
  {
    CombinationsDropOne("BC");
    CombinationsDropOne("AC");
    CombinationsDropOne("AB");
    assert Drop("ABC", 0) == "BC";
    assert Drop("ABC", 1) == "AC";
    assert Drop("ABC", 2) == "AB";
    assert Drop("BC", 0) == "C" && Drop("BC", 1) == "B";
    assert Drop("AC", 0) == "C" && Drop("AC", 1) == "A";
    assert Drop("AB", 0) == "B" && Drop("AB", 1) == "A";
    assert CombinationsBelow("ABC", 1, 3)
        == CombinationsBelow("ABC", 1, 2) + Combinations("AB", 1);
    assert CombinationsBelow("ABC", 1, 2)
        == CombinationsBelow("ABC", 1, 1) + Combinations("AC", 1);
    assert CombinationsBelow("ABC", 1, 1)
        == CombinationsBelow("ABC", 1, 0) + Combinations("BC", 1);
  }
}
