/**
 * Character classes, trimming, accent- and case-folding and substring search:
 * the string operations the shopping list borrows from JavaScript
 * (`String.prototype.trim`, `toLowerCase`, `normalize("NFD")` followed by
 * stripping the combining marks U+0300..U+036F, and `includes`).
 */
module Text {

  /** The characters JavaScript's `trim` removes and its regular-expression class `\s` matches. */
  predicate IsSpace(c: char)
  {
    c == '\t' || c == '\n' || c == '\U{000B}' || c == '\U{000C}' || c == '\r' || c == ' '
    || c == '\U{00A0}' || c == '\U{1680}' || ('\U{2000}' <= c <= '\U{200A}')
    || c == '\U{2028}' || c == '\U{2029}' || c == '\U{202F}' || c == '\U{205F}'
    || c == '\U{3000}' || c == '\U{FEFF}'
  }

  /** `\d` in a JavaScript regular expression without the `u` flag. */
  predicate IsDigit(c: char)
  {
    '0' <= c <= '9'
  }

  /** The class `[a-zA-Z]`. */
  predicate IsAsciiLetter(c: char)
  {
    ('a' <= c <= 'z') || ('A' <= c <= 'Z')
  }

  predicate AllLetters(s: string)
  {
    forall i :: 0 <= i < |s| ==> IsAsciiLetter(s[i])
  }

  predicate AllSpaces(s: string)
  {
    forall i :: 0 <= i < |s| ==> IsSpace(s[i])
  }

  // ---------------------------------------------------------------- trim

  /** The first index at or after `i` that does not hold whitespace (or `|s|`). */
  function SkipSpaces(s: string, i: nat): (j: nat)
    requires i <= |s|
    ensures i <= j <= |s|
    ensures forall k :: i <= k < j ==> IsSpace(s[k])
    ensures j < |s| ==> !IsSpace(s[j])
    decreases |s| - i
  {
    if i < |s| && IsSpace(s[i]) then SkipSpaces(s, i + 1) else i
  }

  /** The end of `s[lo..j]` once its trailing whitespace is cut off. */
  function SkipSpacesBack(s: string, lo: nat, j: nat): (e: nat)
    requires lo <= j <= |s|
    ensures lo <= e <= j
    ensures forall k :: e <= k < j ==> IsSpace(s[k])
    ensures e > lo ==> !IsSpace(s[e - 1])
  {
    if j > lo && IsSpace(s[j - 1]) then SkipSpacesBack(s, lo, j - 1) else j
  }

  /** `r` is the slice of `s` at `i` and everything of `s` around it is whitespace. */
  ghost predicate TrimmedAt(s: string, r: string, i: nat)
  {
    && i + |r| <= |s|
    && r == s[i..i + |r|]
    && (forall k :: 0 <= k < i ==> IsSpace(s[k]))
    && (forall k :: i + |r| <= k < |s| ==> IsSpace(s[k]))
  }

  /** `String.prototype.trim`. */
  function Trim(s: string): (r: string)
    ensures |r| <= |s|
  {
    var a := SkipSpaces(s, 0);
    var b := SkipSpacesBack(s, a, |s|);
    s[a..b]
  }

  /**
   * Trimming removes whitespace from both ends and nothing else: the result
   * is a slice of `s` with only whitespace around it, it neither starts nor
   * ends with whitespace, and it is empty exactly when `s` is all whitespace.
   */
  lemma TrimSpec(s: string)
    ensures exists i: nat :: TrimmedAt(s, Trim(s), i)
    ensures Trim(s) != [] ==> !IsSpace(Trim(s)[0]) && !IsSpace(Trim(s)[|Trim(s)| - 1])
    ensures Trim(s) == [] <==> AllSpaces(s)
  {
    var a := SkipSpaces(s, 0);
    var b := SkipSpacesBack(s, a, |s|);
    assert Trim(s) == s[a..b];
    assert TrimmedAt(s, Trim(s), a);
  }

  /** Trimming twice is trimming once. */
  lemma TrimIdempotent(s: string)
    ensures Trim(Trim(s)) == Trim(s)
  {
    var r := Trim(s);
    if r != [] {
      assert SkipSpaces(r, 0) == 0;
      assert SkipSpacesBack(r, 0, |r|) == |r|;
      assert r[0..|r|] == r;
    }
  }

  // ---------------------------------------------------------------- folding

  /** The combining diacritical marks U+0300..U+036F that `removeAccents` deletes. */
  predicate IsCombiningMark(c: char)
  {
    '\U{0300}' <= c <= '\U{036F}'
  }

  /**
   * One character lower-cased and, when it is a precomposed Latin-1 letter
   * with a diacritic, reduced to its base letter (what canonical
   * decomposition followed by mark stripping leaves of it).  Combining
   * marks themselves are dropped by `Fold` and never reach this function.
   */
  function FoldChar(c: char): (d: char)
    ensures !('A' <= d <= 'Z')
    ensures !IsCombiningMark(c) ==> !IsCombiningMark(d)
    ensures 'A' <= c <= 'Z' ==> d == (c as int + 32) as char
    ensures c < '\U{0080}' && !('A' <= c <= 'Z') ==> d == c
  {
    if 'A' <= c <= 'Z' then (c as int + 32) as char
    else if ('\U{00C0}' <= c <= '\U{00C5}') || ('\U{00E0}' <= c <= '\U{00E5}') then 'a'
    else if c == '\U{00C6}' then '\U{00E6}'
    else if c == '\U{00C7}' || c == '\U{00E7}' then 'c'
    else if ('\U{00C8}' <= c <= '\U{00CB}') || ('\U{00E8}' <= c <= '\U{00EB}') then 'e'
    else if ('\U{00CC}' <= c <= '\U{00CF}') || ('\U{00EC}' <= c <= '\U{00EF}') then 'i'
    else if c == '\U{00D0}' then '\U{00F0}'
    else if c == '\U{00D1}' || c == '\U{00F1}' then 'n'
    else if ('\U{00D2}' <= c <= '\U{00D6}') || ('\U{00F2}' <= c <= '\U{00F6}') then 'o'
    else if c == '\U{00D8}' then '\U{00F8}'
    else if ('\U{00D9}' <= c <= '\U{00DC}') || ('\U{00F9}' <= c <= '\U{00FC}') then 'u'
    else if c == '\U{00DD}' || c == '\U{00FD}' || c == '\U{00FF}' then 'y'
    else if c == '\U{00DE}' then '\U{00FE}'
    else c
  }

  /**
   * `removeAccents(s.toLowerCase())`: every character folded and every
   * combining mark dropped, so never longer than `s`.  `FoldSingle` and
   * `FoldAppend` together determine it.
   */
  function Fold(s: string): (r: string)
    ensures |r| <= |s|
  {
    if s == [] then []
    else (if IsCombiningMark(s[0]) then [] else [FoldChar(s[0])]) + Fold(s[1..])
  }

  /** A folded text holds no upper-case ASCII letter and no combining mark. */
  lemma {:induction false} FoldClean(s: string)
    ensures forall i :: 0 <= i < |Fold(s)| ==> !('A' <= Fold(s)[i] <= 'Z') && !IsCombiningMark(Fold(s)[i])
  {
    if s != [] {
      FoldClean(s[1..]);
    }
  }

  /** One character folds to itself lower-cased and unaccented, or to nothing when it is a combining mark. */
  lemma FoldSingle(c: char)
    ensures Fold([c]) == if IsCombiningMark(c) then [] else [FoldChar(c)]
  {
    assert [c][1..] == [];
  }

  /** Case does not matter: `"ARROZ"` and `"arroz"` fold alike. */
  lemma FoldIgnoresCase()
    ensures Fold("ARROZ") == Fold("arroz") == "arroz"
  {
    FoldUpper();
    FoldLower();
  }

  lemma FoldUpper()
    ensures Fold("ARROZ") == "arroz"
  {
    assert Fold("Z") == "z" by { FoldSingle('Z'); }
    assert Fold("OZ") == "oz" by { assert "OZ"[1..] == "Z"; }
    assert Fold("ROZ") == "roz" by { assert "ROZ"[1..] == "OZ"; }
    assert Fold("RROZ") == "rroz" by { assert "RROZ"[1..] == "ROZ"; }
    assert "ARROZ"[1..] == "RROZ";
  }

  lemma FoldLower()
    ensures Fold("arroz") == "arroz"
  {
    assert Fold("z") == "z" by { FoldSingle('z'); }
    assert Fold("oz") == "oz" by { assert "oz"[1..] == "z"; }
    assert Fold("roz") == "roz" by { assert "roz"[1..] == "oz"; }
    assert Fold("rroz") == "rroz" by { assert "rroz"[1..] == "roz"; }
    assert "arroz"[1..] == "rroz";
  }

  /**
   * Accents do not matter, precomposed or not: `"Feijão"`, with U+00E3, and
   * `"feijão"` written as `a` followed by the combining tilde U+0303 both
   * fold to `"feijao"`.
   */
  lemma FoldIgnoresAccents()
    ensures Fold("Feij\U{00E3}o") == Fold("feija\U{0303}o") == "feijao"
  {
    FoldPrecomposed();
    FoldDecomposed();
  }

  lemma FoldPrecomposed()
    ensures Fold("Feij\U{00E3}o") == "feijao"
  {
    assert Fold("o") == "o" by { FoldSingle('o'); }
    assert Fold("\U{00E3}o") == "ao" by { assert "\U{00E3}o"[1..] == "o"; }
    assert Fold("j\U{00E3}o") == "jao" by { assert "j\U{00E3}o"[1..] == "\U{00E3}o"; }
    assert Fold("ij\U{00E3}o") == "ijao" by { assert "ij\U{00E3}o"[1..] == "j\U{00E3}o"; }
    assert Fold("eij\U{00E3}o") == "eijao" by { assert "eij\U{00E3}o"[1..] == "ij\U{00E3}o"; }
    assert "Feij\U{00E3}o"[1..] == "eij\U{00E3}o";
  }

  lemma FoldDecomposed()
    ensures Fold("feija\U{0303}o") == "feijao"
  {
    assert Fold("o") == "o" by { FoldSingle('o'); }
    assert Fold("\U{0303}o") == "o" by { assert "\U{0303}o"[1..] == "o"; }
    assert Fold("a\U{0303}o") == "ao" by { assert "a\U{0303}o"[1..] == "\U{0303}o"; }
    assert Fold("ja\U{0303}o") == "jao" by { assert "ja\U{0303}o"[1..] == "a\U{0303}o"; }
    assert Fold("ija\U{0303}o") == "ijao" by { assert "ija\U{0303}o"[1..] == "ja\U{0303}o"; }
    assert Fold("eija\U{0303}o") == "eijao" by { assert "eija\U{0303}o"[1..] == "ija\U{0303}o"; }
    assert "feija\U{0303}o"[1..] == "eija\U{0303}o";
  }

  lemma FoldCharIdempotent(c: char)
    ensures FoldChar(FoldChar(c)) == FoldChar(c)
  {
  }

  /** Folding distributes over concatenation. */
  lemma {:induction false} FoldAppend(a: string, b: string)
    ensures Fold(a + b) == Fold(a) + Fold(b)
  {
    if a == [] {
      assert a + b == b;
    } else {
      var head := if IsCombiningMark(a[0]) then [] else [FoldChar(a[0])];
      assert (a + b)[0] == a[0];
      assert (a + b)[1..] == a[1..] + b;
      FoldAppend(a[1..], b);
      assert Fold(a + b) == head + (Fold(a[1..]) + Fold(b));
    }
  }

  /** Folding an already folded name changes nothing. */
  lemma {:induction false} FoldIdempotent(s: string)
    ensures Fold(Fold(s)) == Fold(s)
  {
    if s != [] {
      var head := if IsCombiningMark(s[0]) then [] else [FoldChar(s[0])];
      FoldAppend(head, Fold(s[1..]));
      FoldIdempotent(s[1..]);
      if !IsCombiningMark(s[0]) {
        FoldCharIdempotent(s[0]);
        assert Fold(head) == [FoldChar(FoldChar(s[0]))] + Fold(head[1..]);
      }
    }
  }

  // ---------------------------------------------------------------- substring

  /** `sub` occurs in `s` starting at index `i`. */
  predicate OccursAt(s: string, sub: string, i: nat)
  {
    i + |sub| <= |s| && s[i..i + |sub|] == sub
  }

  /** `String.prototype.includes`: some occurrence of `sub` exists in `s`. */
  function Contains(s: string, sub: string): (r: bool)
    ensures r <==> exists i: nat :: OccursAt(s, sub, i)
  {
    if |sub| > |s| then
      false
    else if s[..|sub|] == sub then
      assert OccursAt(s, sub, 0);
      true
    else
      assert !OccursAt(s, sub, 0);
      OccursAtShift(s, sub);
      Contains(s[1..], sub)
  }

  /** Past the first position, the occurrences in `s` are those of its tail, shifted by one. */
  lemma OccursAtShift(s: string, sub: string)
    requires s != [] && !OccursAt(s, sub, 0)
    ensures (exists i: nat :: OccursAt(s[1..], sub, i)) <==> (exists i: nat :: OccursAt(s, sub, i))
  {
    forall i: nat
      ensures OccursAt(s[1..], sub, i) <==> OccursAt(s, sub, i + 1)
    {
      if i + 1 + |sub| <= |s| {
        assert s[1..][i..i + |sub|] == s[i + 1..i + 1 + |sub|];
      }
    }
    if exists i: nat :: OccursAt(s, sub, i) {
      var i: nat :| OccursAt(s, sub, i);
      assert i != 0;
      assert OccursAt(s[1..], sub, i - 1);
    }
  }
}
