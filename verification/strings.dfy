/**
  The parts of Go's `strings` package that the membership services rely on:
  lower-casing, white-space trimming, substring search and the two-way split
  `strings.SplitN(s, sep, 2)`.
 */
module Strings {
  import opened Wrappers

  /* ---------------------------------------------------------------------- */
  /* Lower-casing                                                            */
  /* ---------------------------------------------------------------------- */

  predicate IsUpper(c: char) {
    'A' <= c <= 'Z'
  }

  /** Lower-cases one letter of the ASCII range; every other character is kept. */
  function LowerChar(c: char): (r: char)
    ensures IsUpper(c) ==> r as int == c as int + 32
    ensures !IsUpper(c) ==> r == c
    ensures !IsUpper(r)
  {
    if IsUpper(c) then (c as int + 32) as char else c
  }

  /** `strings.ToLower`, restricted to ASCII letters. */
  function ToLower(s: string): (r: string)
    ensures |r| == |s|
    ensures forall i :: 0 <= i < |s| ==> r[i] == LowerChar(s[i])
  {
    seq(|s|, i requires 0 <= i < |s| => LowerChar(s[i]))
  }

  predicate IsLower(s: string) {
    forall i :: 0 <= i < |s| ==> !IsUpper(s[i])
  }

  lemma ToLowerIsLower(s: string)
    ensures IsLower(ToLower(s))
  {
  }

  /** Lower-casing an already lower-case string changes nothing. */
  lemma ToLowerOfLower(s: string)
    requires IsLower(s)
    ensures ToLower(s) == s
  {
  }

  lemma ToLowerIdempotent(s: string)
    ensures ToLower(ToLower(s)) == ToLower(s)
  {
    ToLowerIsLower(s);
    ToLowerOfLower(ToLower(s));
  }

  lemma ToLowerSlice(s: string, i: nat, j: nat)
    requires i <= j <= |s|
    ensures ToLower(s)[i..j] == ToLower(s[i..j])
  {
  }

  /* ---------------------------------------------------------------------- */
  /* White space                                                             */
  /* ---------------------------------------------------------------------- */

  /** `unicode.IsSpace`: the Latin-1 spaces plus the Unicode White_Space set. */
  predicate IsSpace(c: char) {
    var n := c as int;
    || 9 <= n <= 13
    || n == 0x20
    || n == 0x85
    || n == 0xA0
    || n == 0x1680
    || 0x2000 <= n <= 0x200A
    || n == 0x2028
    || n == 0x2029
    || n == 0x202F
    || n == 0x205F
    || n == 0x3000
  }

  predicate AllSpace(s: string) {
    forall i :: 0 <= i < |s| ==> IsSpace(s[i])
  }

  /** No white-space character is an upper-case letter, so lower-casing keeps spaces. */
  lemma LowerCharKeepsSpace(c: char)
    ensures IsSpace(LowerChar(c)) <==> IsSpace(c)
  {
  }

  /** The number of white-space characters that start `s`. */
  function LeadingSpaces(s: string): (n: nat)
    ensures n <= |s|
    ensures forall i :: 0 <= i < n ==> IsSpace(s[i])
    ensures n < |s| ==> !IsSpace(s[n])
  {
    if |s| > 0 && IsSpace(s[0]) then 1 + LeadingSpaces(s[1..]) else 0
  }

  /** The index just past the last character of `s` that is not white space. */
  function TextEnd(s: string): (n: nat)
    ensures n <= |s|
    ensures forall i :: n <= i < |s| ==> IsSpace(s[i])
    ensures 0 < n ==> !IsSpace(s[n - 1])
  {
    if |s| > 0 && IsSpace(s[|s| - 1]) then TextEnd(s[..|s| - 1]) else |s|
  }

  /** Drops leading white space. */
  function TrimLeft(s: string): string {
    s[LeadingSpaces(s)..]
  }

  /** Drops trailing white space. */
  function TrimRight(s: string): string {
    s[..TextEnd(s)]
  }

  /** `strings.TrimSpace`: the longest infix with no white space at either end. */
  function TrimSpace(s: string): (r: string)
    ensures |r| <= |s|
    ensures r == [] || (!IsSpace(r[0]) && !IsSpace(r[|r| - 1]))
  {
    TrimRight(TrimLeft(s))
  }

  /** Trimming removes exactly the white space around the text and nothing else. */
  lemma TrimSpacePadding(pre: string, s: string, post: string)
    requires AllSpace(pre) && AllSpace(post)
    requires s == [] || (!IsSpace(s[0]) && !IsSpace(s[|s| - 1]))
    ensures TrimSpace(pre + s + post) == s
  {
    var x := pre + s + post;
    var n := LeadingSpaces(x);
    if s == [] {
      assert AllSpace(x);
      assert TrimLeft(x) == [];
    } else {
      assert x[|pre|] == s[0];
      assert forall i :: 0 <= i < |pre| ==> x[i] == pre[i];
      assert n == |pre|;
      var y := x[|pre|..];
      assert y == s + post;
      var m := TextEnd(y);
      assert y[|s| - 1] == s[|s| - 1];
      assert forall i :: |s| <= i < |y| ==> y[i] == post[i - |s|];
      assert m == |s|;
      assert y[..m] == s;
    }
  }

  lemma TrimSpaceIdempotent(s: string)
    ensures TrimSpace(TrimSpace(s)) == TrimSpace(s)
  {
    var t := TrimSpace(s);
    assert [] + t + [] == t;
    TrimSpacePadding([], t, []);
  }

  lemma {:induction false} LeadingSpacesLower(s: string)
    ensures LeadingSpaces(ToLower(s)) == LeadingSpaces(s)
    decreases |s|
  {
    if |s| > 0 {
      LowerCharKeepsSpace(s[0]);
      assert ToLower(s)[1..] == ToLower(s[1..]);
      LeadingSpacesLower(s[1..]);
    }
  }

  lemma {:induction false} TextEndLower(s: string)
    ensures TextEnd(ToLower(s)) == TextEnd(s)
    decreases |s|
  {
    if |s| > 0 {
      LowerCharKeepsSpace(s[|s| - 1]);
      assert ToLower(s)[..|s| - 1] == ToLower(s[..|s| - 1]);
      TextEndLower(s[..|s| - 1]);
    }
  }

  /** Trimming and lower-casing commute, since no space is a letter. */
  lemma TrimSpaceLower(s: string)
    ensures TrimSpace(ToLower(s)) == ToLower(TrimSpace(s))
  {
    var n := LeadingSpaces(s);
    LeadingSpacesLower(s);
    ToLowerSlice(s, n, |s|);
    var t := TrimLeft(s);
    assert TrimLeft(ToLower(s)) == ToLower(t);
    var m := TextEnd(t);
    TextEndLower(t);
    ToLowerSlice(t, 0, m);
  }

  /* ---------------------------------------------------------------------- */
  /* Substring search                                                        */
  /* ---------------------------------------------------------------------- */

  /** `sub` occurs in `s` starting at index `i`. */
  ghost predicate OccursAt(s: string, sub: string, i: int) {
    0 <= i && i + |sub| <= |s| && s[i..i + |sub|] == sub
  }

  /** `strings.Contains`, computed by trying every start position in turn. */
  predicate Contains(s: string, sub: string)
    decreases |s|
  {
    sub <= s || (|s| > 0 && Contains(s[1..], sub))
  }

  /** An occurrence at any index makes `Contains` true. */
  lemma {:induction false} OccursContains(s: string, sub: string, i: int)
    requires OccursAt(s, sub, i)
    ensures Contains(s, sub)
    decreases i
  {
    if i == 0 {
      assert s[..|sub|] == sub;
    } else {
      assert s[1..][i - 1..i - 1 + |sub|] == s[i..i + |sub|];
      OccursContains(s[1..], sub, i - 1);
    }
  }

  /** When `Contains` holds, it names an index where `sub` occurs. */
  lemma {:induction false} ContainsWitness(s: string, sub: string) returns (i: nat)
    requires Contains(s, sub)
    ensures OccursAt(s, sub, i)
    decreases |s|
  {
    if sub <= s {
      i := 0;
      assert s[..|sub|] == sub;
    } else {
      var j := ContainsWitness(s[1..], sub);
      assert s[1..][j..j + |sub|] == s[j + 1..j + 1 + |sub|];
      i := j + 1;
    }
  }

  /** Every character of a contained string is a character of the whole. */
  lemma ContainsChars(s: string, sub: string, c: char)
    requires Contains(s, sub) && c in sub
    ensures c in s
  {
    var i := ContainsWitness(s, sub);
    var k :| 0 <= k < |sub| && sub[k] == c;
    assert s[i + k] == s[i..i + |sub|][k];
  }

  /** Text lacking one character of `word` does not contain `word`. */
  lemma ContainsCharsFail(s: string, word: string, c: char)
    requires c in word && c !in s
    ensures !Contains(s, word)
  {
    if Contains(s, word) {
      ContainsChars(s, word, c);
    }
  }

  /** `Contains` holds exactly when `sub` occurs at some index of `s`. */
  lemma ContainsIffOccurs(s: string, sub: string)
    ensures Contains(s, sub) <==> exists i :: OccursAt(s, sub, i)
  {
    forall i | OccursAt(s, sub, i)
      ensures Contains(s, sub)
    {
      OccursContains(s, sub, i);
    }
    if Contains(s, sub) {
      var i := ContainsWitness(s, sub);
    }
  }

  /* ---------------------------------------------------------------------- */
  /* Prefixes and splitting                                                  */
  /* ---------------------------------------------------------------------- */

  /** `strings.TrimPrefix`. */
  function TrimPrefix(s: string, prefix: string): (r: string)
    ensures prefix <= s ==> prefix + r == s
    ensures !(prefix <= s) ==> r == s
  {
    if prefix <= s then s[|prefix|..] else s
  }

  /** Index of the first occurrence of `c` in `s`. */
  function IndexOf(s: string, c: char): (r: Option<nat>)
    ensures r.None? <==> c !in s
    ensures r.Some? ==> r.value < |s| && s[r.value] == c && c !in s[..r.value]
  {
    if |s| == 0 then None
    else if s[0] == c then Some(0)
    else
      match IndexOf(s[1..], c)
      case None => None
      case Some(i) =>
        assert s[..i + 1] == [s[0]] + s[1..][..i];
        Some(i + 1)
  }

  /**
    `strings.SplitN(s, [sep], 2)`: a single part when `sep` does not occur,
    otherwise the text before the first `sep` and everything after it.
   */
  function SplitFirst(s: string, sep: char): (parts: seq<string>)
    ensures |parts| == 1 || |parts| == 2
    ensures |parts| == 2 <==> sep in s
    ensures |parts| == 1 ==> parts[0] == s
    ensures |parts| == 2 ==> sep !in parts[0] && parts[0] + [sep] + parts[1] == s
  {
    match IndexOf(s, sep)
    case None => [s]
    case Some(i) =>
      assert s == s[..i] + [sep] + s[i + 1..];
      [s[..i], s[i + 1..]]
  }

  /** The first `c` is found at `k` when `s[k]` is `c` and nothing before it is. */
  lemma IndexOfAt(s: string, c: char, k: nat)
    requires k < |s| && s[k] == c && c !in s[..k]
    ensures IndexOf(s, c) == Some(k)
  {
    var r := IndexOf(s, c).value;
    assert forall j :: 0 <= j < k ==> s[j] != c by {
      forall j | 0 <= j < k
        ensures s[j] != c
      {
        assert s[j] == s[..k][j];
      }
    }
    assert forall j :: 0 <= j < r ==> s[j] != c by {
      forall j | 0 <= j < r
        ensures s[j] != c
      {
        assert s[j] == s[..r][j];
      }
    }
  }

  /** Splitting a joined pair gives the pair back when the head holds no separator. */
  lemma SplitFirstJoin(head: string, sep: char, tail: string)
    requires sep !in head
    ensures SplitFirst(head + [sep] + tail, sep) == [head, tail]
  {
    var s := head + [sep] + tail;
    assert s[..|head|] == head;
    assert s[|head| + 1..] == tail;
    IndexOfAt(s, sep, |head|);
  }
}
