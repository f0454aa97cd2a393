/** The Go string operations the models use. A string holds one char per byte. */
module GoText {

  /** The byte-lexicographic order of Go's < on strings. */
  predicate Less(a: string, b: string) {
    if b == "" then false
    else if a == "" then true
    else if a[0] != b[0] then a[0] < b[0]
    else Less(a[1..], b[1..])
  }

  /** A proper prefix, or smaller at the first byte that differs. */
  predicate Precedes(a: string, b: string) {
    exists k {:trigger a[..k]} :: 0 <= k <= |a| && k < |b| && a[..k] == b[..k] && (k == |a| || a[k] < b[k])
  }

  lemma {:induction false} LessExactly(a: string, b: string)
    ensures Less(a, b) <==> Precedes(a, b)
  {
    if a == "" || b == "" || a[0] != b[0] {
      assert a[..0] == b[..0];
    } else {
      LessExactly(a[1..], b[1..]);
      PrecedesTail(a, b);
    }
  }

  lemma PrecedesTail(a: string, b: string)
    requires a != "" && b != "" && a[0] == b[0]
    ensures Precedes(a, b) <==> Precedes(a[1..], b[1..])
  {
    if Precedes(a, b) {
      var k :| 0 <= k <= |a| && k < |b| && a[..k] == b[..k] && (k == |a| || a[k] < b[k]);
      assert a[1..][..k - 1] == a[..k][1..] == b[..k][1..] == b[1..][..k - 1];
    }
    if Precedes(a[1..], b[1..]) {
      var k :| 0 <= k <= |a[1..]| && k < |b[1..]| && a[1..][..k] == b[1..][..k] && (k == |a[1..]| || a[1..][k] < b[1..][k]);
      assert a[..k + 1] == [a[0]] + a[1..][..k] && b[..k + 1] == [b[0]] + b[1..][..k];
    }
  }

  lemma {:induction a} LessIsIrreflexive(a: string)
    ensures !Less(a, a)
  {
  }

  lemma {:induction false} LessIsTransitive(a: string, b: string, c: string)
    requires Less(a, b) && Less(b, c)
    ensures Less(a, c)
  {
    if a == "" || a[0] != b[0] || b[0] != c[0] {
    } else {
      LessIsTransitive(a[1..], b[1..], c[1..]);
    }
  }

  lemma {:induction false} LessIsTotal(a: string, b: string)
    ensures a == b || Less(a, b) || Less(b, a)
  {
    if a == "" || b == "" || a[0] != b[0] {
    } else {
      LessIsTotal(a[1..], b[1..]);
      assert a == [a[0]] + a[1..] && b == [b[0]] + b[1..];
    }
  }

  lemma LessIsStrictOrder()
    ensures forall a :: !Less(a, a)
    ensures forall a, b, c :: Less(a, b) && Less(b, c) ==> Less(a, c)
    ensures forall a, b :: a == b || Less(a, b) || Less(b, a)
  {
    forall a ensures !Less(a, a) { LessIsIrreflexive(a); }
    forall a, b, c | Less(a, b) && Less(b, c) ensures Less(a, c) { LessIsTransitive(a, b, c); }
    forall a, b ensures a == b || Less(a, b) || Less(b, a) { LessIsTotal(a, b); }
  }

  predicate HasPrefix(s: string, prefix: string) {
    prefix <= s
  }

  predicate HasSuffix(s: string, suffix: string) {
    |suffix| <= |s| && s[|s| - |suffix|..] == suffix
  }

  predicate Contains(s: string, part: string) {
    exists i :: 0 <= i <= |s| && part <= s[i..]
  }

  /** Case folding on the ASCII letters; every other byte is kept. */
  function LowerChar(c: char): (l: char)
    ensures l == c || ('A' <= c <= 'Z' && 'a' <= l <= 'z')
    ensures 'A' <= c <= 'Z' ==> l as int == c as int + 32
  {
    if 'A' <= c <= 'Z' then (c as int + 32) as char else c
  }

  function ToLower(s: string): (l: string)
    ensures |l| == |s|
    ensures forall i :: 0 <= i < |s| ==> l[i] == LowerChar(s[i])
  {
    seq(|s|, i requires 0 <= i < |s| => LowerChar(s[i]))
  }

  predicate EqualFold(a: string, b: string) {
    ToLower(a) == ToLower(b)
  }

  predicate IsSpace(c: char) {
    c in " \t\n\r" || c == 0x0b as char || c == 0x0c as char
  }

  /** strings.TrimSpace on ASCII white space. */
  function TrimSpace(s: string): (t: string)
    ensures Trimmed(t)
    ensures Trimmed(s) ==> t == s
  {
    if s == "" then s
    else if IsSpace(s[0]) then TrimSpace(s[1..])
    else if IsSpace(s[|s| - 1]) then TrimSpace(s[..|s| - 1])
    else s
  }

  /** No white space at either end. */
  predicate Trimmed(s: string) {
    s == "" || (!IsSpace(s[0]) && !IsSpace(s[|s| - 1]))
  }

  predicate LowerHex(s: string) {
    forall i :: 0 <= i < |s| ==> '0' <= s[i] <= '9' || 'a' <= s[i] <= 'f'
  }

  /** The text of a SHA-256 digest. */
  predicate IsSha256(s: string) {
    |s| == 71 && HasPrefix(s, "sha256:") && LowerHex(s[7..])
  }

  // ----- what these operations are -----

  /** Tab, line feed, vertical tab, form feed, carriage return and space. */
  lemma IsSpaceExactly(c: char)
    ensures IsSpace(c) <==> 9 <= c as int <= 13 || c as int == 32
  {
  }

  ghost predicate AllSpaces(s: string) {
    forall c :: c in s ==> IsSpace(c)
  }

  /** Trimming takes off white space in front and behind, and nothing else. */
  lemma {:induction false} TrimmedParts(s: string) returns (before: string, after: string)
    ensures s == before + TrimSpace(s) + after && AllSpaces(before) && AllSpaces(after)
  {
    if s == "" {
      before, after := "", "";
    } else if IsSpace(s[0]) {
      before, after := TrimmedParts(s[1..]);
      before := [s[0]] + before;
    } else if IsSpace(s[|s| - 1]) {
      before, after := TrimmedParts(s[..|s| - 1]);
      after := after + [s[|s| - 1]];
    } else {
      before, after := "", "";
      assert s == "" + s + "";
    }
  }

  lemma {:induction false} TrimSpaceOf(before: string, text: string, after: string)
    requires AllSpaces(before) && AllSpaces(after) && Trimmed(text) && text != ""
    ensures TrimSpace(before + text + after) == text
    decreases |before| + |after|
  {
    var s := before + text + after;
    if before != "" {
      assert s[1..] == before[1..] + text + after;
      assert s[0] in before;
      TrimSpaceOf(before[1..], text, after);
    } else if after != "" {
      assert s[..|s| - 1] == before + text + after[..|after| - 1];
      assert s[0] == text[0] && s[|s| - 1] in after;
      TrimSpaceOf(before, text, after[..|after| - 1]);
    } else {
      assert s == text;
    }
  }

  ghost predicate HasWord(s: string, word: string) {
    exists before, after :: s == before + word + after
  }

  ghost predicate HasEnd(s: string, end: string) {
    exists before :: s == before + end
  }

  lemma ContainsExactly(s: string, part: string)
    ensures Contains(s, part) <==> HasWord(s, part)
  {
    if Contains(s, part) {
      var i :| 0 <= i <= |s| && part <= s[i..];
      assert s == s[..i] + part + s[i + |part|..];
    }
    if before, after :| s == before + part + after {
      assert s[|before|..] == part + after;
    }
  }

  lemma HasSuffixExactly(s: string, suffix: string)
    ensures HasSuffix(s, suffix) <==> HasEnd(s, suffix)
  {
    if HasSuffix(s, suffix) {
      assert s == s[..|s| - |suffix|] + suffix;
    }
  }

  /** Texts that differ at most in the case of ASCII letters. */
  lemma EqualFoldExactly(a: string, b: string)
    ensures EqualFold(a, b) <==> |a| == |b| && forall i :: 0 <= i < |a| ==> a[i] == b[i] || LowerChar(a[i]) == LowerChar(b[i])
  {
    if |a| == |b| {
      assert forall i :: 0 <= i < |a| ==> ToLower(a)[i] == LowerChar(a[i]) && ToLower(b)[i] == LowerChar(b[i]);
    }
  }

  /** 0 to 9 and a to f by their codes. */
  predicate IsHexDigit(c: char) {
    48 <= c as int <= 57 || 97 <= c as int <= 102
  }

  lemma LowerHexExactly(s: string)
    ensures LowerHex(s) <==> forall c :: c in s ==> IsHexDigit(c)
  {
    if forall c :: c in s ==> IsHexDigit(c) {
      forall i | 0 <= i < |s| ensures '0' <= s[i] <= '9' || 'a' <= s[i] <= 'f' {
        assert s[i] in s;
        HexDigitCode(s[i]);
      }
    }
    if LowerHex(s) {
      forall c | c in s ensures IsHexDigit(c) {
        HexDigitCode(c);
      }
    }
  }

  lemma HexDigitCode(c: char)
    ensures IsHexDigit(c) <==> '0' <= c <= '9' || 'a' <= c <= 'f'
  {
    assert '0' as int == 48 && '9' as int == 57 && 'a' as int == 97 && 'f' as int == 102;
  }

  lemma IsSha256Exactly(s: string)
    ensures IsSha256(s) <==> exists hex :: s == "sha256:" + hex && |hex| == 64 && forall c :: c in hex ==> IsHexDigit(c)
  {
    if IsSha256(s) {
      assert s == "sha256:" + s[7..];
      LowerHexExactly(s[7..]);
    }
    if hex :| s == "sha256:" + hex && |hex| == 64 && forall c :: c in hex ==> IsHexDigit(c) {
      assert s[7..] == hex;
      LowerHexExactly(hex);
    }
  }
}
