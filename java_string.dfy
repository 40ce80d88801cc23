/** The java.lang.String operations that PackageUtil relies on, over
    `string` = `seq<char>`. Positions are Java's: -1 means "not found". */
module JavaString {
  import opened Wrappers

  /** The unchecked exception `String.substring` throws on bad bounds. */
  datatype Exception = StringIndexOutOfBounds(begin: int, end: int, length: int)

  /** `s.startsWith(prefix)`; also the literal-prefix test of a trie's `prefixMap`. */
  predicate StartsWith(s: string, prefix: string) {
    |prefix| <= |s| && s[..|prefix|] == prefix
  }

  /** `startsWith` compares character by character from the front. */
  lemma StartsWithChars(s: string, prefix: string)
    ensures StartsWith(s, prefix) <==> |prefix| <= |s| && forall i :: 0 <= i < |prefix| ==> s[i] == prefix[i]
  {
  }

  /** `s.endsWith(suffix)`. */
  predicate EndsWith(s: string, suffix: string) {
    |suffix| <= |s| && s[|s| - |suffix|..] == suffix
  }

  /** `endsWith` compares character by character from the back. */
  lemma EndsWithChars(s: string, suffix: string)
    ensures EndsWith(s, suffix) <==> |suffix| <= |s| && forall i :: 0 <= i < |suffix| ==> s[|s| - |suffix| + i] == suffix[i]
  {
  }

  /** Putting text in front keeps a string's ending. */
  lemma EndsWithAppend(p: string, s: string, e: string)
    requires EndsWith(s, e)
    ensures EndsWith(p + s, e)
  {
    assert (p + s)[|p + s| - |e|..] == s[|s| - |e|..];
  }

  /** `s.indexOf(c)`: the first position of `c` in `s`, or -1. */
  function IndexOf(s: string, c: char): (r: int)
    ensures -1 <= r < |s|
    ensures r == -1 <==> c !in s
    ensures 0 <= r ==> s[r] == c && c !in s[..r]
  {
    if |s| == 0 then -1
    else if s[0] == c then 0
    else
      var i := IndexOf(s[1..], c);
      if i == -1 then -1 else i + 1
  }

  /** `s.lastIndexOf(c)`: the last position of `c` in `s`, or -1. */
  function LastIndexOf(s: string, c: char): (r: int)
    ensures -1 <= r < |s|
    ensures r == -1 <==> c !in s
    ensures 0 <= r ==> s[r] == c && c !in s[r + 1..]
  {
    if |s| == 0 then -1
    else if s[|s| - 1] == c then |s| - 1
    else
      var init := s[..|s| - 1];
      var r := LastIndexOf(init, c);
      assert c in s <==> c in init by { assert s == init + [s[|s| - 1]]; }
      assert 0 <= r ==> s[r + 1..] == init[r + 1..] + [s[|s| - 1]];
      r
  }

  /** The last occurrence of `c` is the one no later `c` follows. */
  lemma {:induction false} LastIndexOfSplit(a: string, c: char, b: string)
    requires c !in b
    ensures LastIndexOf(a + [c] + b, c) == |a|
    decreases |b|
  {
    var s := a + [c] + b;
    if b != [] {
      LastIndexOfSplit(a, c, b[..|b| - 1]);
      assert s[..|s| - 1] == a + [c] + b[..|b| - 1];
    }
  }

  /** `s.replace(oldChar, newChar)`, and `s.replaceAll("/", ".")`, whose
      pattern and replacement hold no regular-expression metacharacter. */
  function Replace(s: string, oldChar: char, newChar: char): (r: string)
    ensures |r| == |s|
    ensures forall i :: 0 <= i < |s| ==> r[i] == (if s[i] == oldChar then newChar else s[i])
  {
    if |s| == 0 then []
    else Replace(s[..|s| - 1], oldChar, newChar) + [if s[|s| - 1] == oldChar then newChar else s[|s| - 1]]
  }

  /** Replacing characters commutes with taking a prefix. */
  lemma ReplacePrefix(s: string, n: nat, oldChar: char, newChar: char)
    requires n <= |s|
    ensures Replace(s, oldChar, newChar)[..n] == Replace(s[..n], oldChar, newChar)
  {
  }

  /** `s.substring(begin, end)`, which throws unless 0 <= begin <= end <= length. */
  function Substring(s: string, begin: int, end: int): (r: Result<string, Exception>)
    ensures r.Success? <==> 0 <= begin <= end <= |s|
    ensures r.Success? ==> |r.value| == end - begin && s == s[..begin] + r.value + s[end..]
    ensures r.Failure? ==> r.error == StringIndexOutOfBounds(begin, end, |s|)
  {
    if 0 <= begin <= end <= |s| then Success(s[begin..end])
    else Failure(StringIndexOutOfBounds(begin, end, |s|))
  }

  /** `Character.toLowerCase` restricted to ASCII letters. */
  function LowerChar(c: char): char {
    if 'A' <= c <= 'Z' then (c as int - 'A' as int + 'a' as int) as char else c
  }

  /** `s.toLowerCase()`, letter by letter. */
  function ToLowerCase(s: string): (r: string)
    ensures |r| == |s|
    ensures forall i :: 0 <= i < |s| ==> r[i] == LowerChar(s[i])
  {
    if |s| == 0 then [] else ToLowerCase(s[..|s| - 1]) + [LowerChar(s[|s| - 1])]
  }

  /** Lower-casing works letter by letter, so it distributes over concatenation. */
  lemma ToLowerCaseAppend(a: string, b: string)
    ensures ToLowerCase(a + b) == ToLowerCase(a) + ToLowerCase(b)
  {
    var l, r := ToLowerCase(a + b), ToLowerCase(a) + ToLowerCase(b);
    assert |l| == |r|;
    forall i | 0 <= i < |l| ensures l[i] == r[i] {
      if i < |a| { assert (a + b)[i] == a[i]; } else { assert (a + b)[i] == b[i - |a|]; }
    }
  }
}
