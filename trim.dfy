/** `pickupWord`: strip the leading and trailing runs of whitespace of a token. */
module Trim {

  /** The characters of the RE2 class `\s`: tab, newline, form feed, carriage return, space. */
  predicate IsSpace(c: char) {
    c == '\t' || c == '\n' || c == '\U{000C}' || c == '\r' || c == ' '
  }

  predicate AllSpace(s: string) {
    forall k :: 0 <= k < |s| ==> IsSpace(s[k])
  }

  /** No whitespace at either end. */
  predicate Trimmed(s: string) {
    s == [] || (!IsSpace(s[0]) && !IsSpace(s[|s| - 1]))
  }

  /** Removes the match of `^[\s]+`. */
  function TrimLeft(s: string): string
  {
    if s != [] && IsSpace(s[0]) then TrimLeft(s[1..]) else s
  }

  /** Removes the match of `[\s]+$`. */
  function TrimRight(s: string): string
  {
    if s != [] && IsSpace(s[|s| - 1]) then TrimRight(s[..|s| - 1]) else s
  }

  /** `TrimLeft` leaves the suffix after the longest all-space prefix. */
  lemma {:induction false} TrimLeftSpec(s: string)
    ensures var r := TrimLeft(s);
            && |r| <= |s| && r == s[|s| - |r|..]
            && AllSpace(s[..|s| - |r|])
            && (r == [] || !IsSpace(r[0]))
  {
    if s != [] && IsSpace(s[0]) {
      TrimLeftSpec(s[1..]);
      var r := TrimLeft(s);
      assert s[..|s| - |r|] == [s[0]] + s[1..][..|s| - 1 - |r|];
    }
  }

  /** `TrimRight` leaves the prefix before the longest all-space suffix. */
  lemma {:induction false} TrimRightSpec(s: string)
    ensures var r := TrimRight(s);
            && |r| <= |s| && r == s[..|r|]
            && AllSpace(s[|r|..])
            && (r == [] || !IsSpace(r[|r| - 1]))
  {
    if s != [] && IsSpace(s[|s| - 1]) {
      TrimRightSpec(s[..|s| - 1]);
      var r := TrimRight(s);
      assert s[|r|..] == s[..|s| - 1][|r|..] + [s[|s| - 1]];
    }
  }

  /** `pickupWord` (both regular-expression replacements, left first). */
  function PickupWord(word: string): string
  {
    TrimRight(TrimLeft(word))
  }

  /** The result is the infix `word[i..j]` between an all-space prefix and an all-space suffix,
      and it has no whitespace at either end. */
  lemma PickupWordInfix(word: string)
    ensures exists i, j :: 0 <= i <= j <= |word| && PickupWord(word) == word[i..j]
                           && AllSpace(word[..i]) && AllSpace(word[j..])
    ensures Trimmed(PickupWord(word))
  {
    var l := TrimLeft(word);
    var r := TrimRight(l);
    TrimLeftSpec(word);
    TrimRightSpec(l);
    var i := |word| - |l|;
    var j := i + |r|;
    assert r == word[i..j];
    assert word[j..] == l[|r|..];
    if r != [] {
      assert r[0] == l[0];
    }
  }

  /** Every character of the result occurs in the input (so trimming adds no `-` or `>`). */
  lemma PickupWordChars(word: string, c: char)
    ensures c in PickupWord(word) ==> c in word
  {
    PickupWordInfix(word);
    var i, j :| 0 <= i <= j <= |word| && PickupWord(word) == word[i..j];
    if c in word[i..j] {
      var k :| 0 <= k < j - i && word[i..j][k] == c;
      assert word[i + k] == c;
    }
  }

  /** An already trimmed string is left as it is. */
  lemma TrimmedFixed(s: string)
    requires Trimmed(s)
    ensures PickupWord(s) == s
  {
    if s != [] {
      assert TrimLeft(s) == s;
    }
  }

  /** Idempotence: applying `pickupWord` twice equals applying it once. */
  lemma PickupWordIdempotent(word: string)
    ensures PickupWord(PickupWord(word)) == PickupWord(word)
  {
    PickupWordInfix(word);
    TrimmedFixed(PickupWord(word));
  }

  lemma {:induction false} AllSpaceTrimLeft(s: string)
    requires AllSpace(s)
    ensures TrimLeft(s) == []
  {
    if s != [] {
      AllSpaceTrimLeft(s[1..]);
    }
  }

  /** An all-space word (the blank line, say) trims to the empty string, and only those do. */
  lemma PickupWordEmpty(word: string)
    ensures PickupWord(word) == [] <==> AllSpace(word)
  {
    PickupWordInfix(word);
    if AllSpace(word) {
      AllSpaceTrimLeft(word);
    }
    if PickupWord(word) == [] {
      var i, j :| 0 <= i <= j <= |word| && PickupWord(word) == word[i..j]
                  && AllSpace(word[..i]) && AllSpace(word[j..]);
      forall k | 0 <= k < |word| ensures IsSpace(word[k]) {
        if k < i { assert word[..i][k] == word[k]; } else { assert word[j..][k - j] == word[k]; }
      }
    }
  }
}
