/**
 The string primitives of the native runtime.  A `string` is a sequence of bytes, one `char` a byte;
 an out-of-range access is the hard trap that every backend raises.
 */
module KiraStrings {
  import opened Outcomes

  /** The byte at `index`; traps outside `0 <= index < |s|`. */
  function CharAt(s: string, index: int): (r: Outcome<char>) {
    if index < 0 || index >= |s| then Trap else Ok(s[index])
  }

  /** The bytes in `[start, end)`; traps on an inverted or out-of-range interval. */
  function Substring(s: string, start: int, end: int): (r: Outcome<string>) {
    if start < 0 || end > |s| || start > end then Trap else Ok(s[start..end])
  }

  /** The two trap helpers of generated code never return, whatever text they are given. */
  lemma TrapHelpersTrap(s: string)
    ensures CharAt(s, |s|) == Trap
    ensures Substring(s, |s| + 1, |s|) == Trap
  {
  }

  ghost predicate OccursAt(needle: string, hay: string, i: int) {
    0 <= i <= |hay| - |needle| && hay[i..i + |needle|] == needle
  }

  /** The first occurrence of `needle`: 0 for the empty needle, -1 when there is none. */
  method IndexOf(hay: string, needle: string) returns (at: int)
    ensures at == -1 || OccursAt(needle, hay, at)
    ensures forall j | 0 <= j && (at == -1 || j < at) :: !OccursAt(needle, hay, j)
  {
    if |needle| == 0 {
      assert hay[0..0] == needle;
      return 0;
    }
    if |hay| < |needle| {
      return -1;
    }
    var i := 0;
    while i + |needle| <= |hay|
      invariant 0 <= i <= |hay| - |needle| + 1
      invariant forall j | 0 <= j < i :: !OccursAt(needle, hay, j)
    {
      if hay[i..i + |needle|] == needle {
        return i;
      }
      i := i + 1;
    }
    return -1;
  }

  /** The first position of one byte: what a search for a one-byte needle finds. */
  function Find(s: string, c: char): (at: int)
    ensures -1 <= at < |s|
  {
    if s == "" then -1
    else if s[0] == c then 0
    else
      var rest := Find(s[1..], c);
      if rest == -1 then -1 else rest + 1
  }

  lemma {:induction false} FindFirst(s: string, c: char)
    ensures var at := Find(s, c);
            && (at >= 0 ==> s[at] == c && c !in s[..at])
            && (at == -1 ==> c !in s)
  {
    if s != "" && s[0] != c {
      FindFirst(s[1..], c);
      var rest := Find(s[1..], c);
      assert s == [s[0]] + s[1..];
      if rest >= 0 {
        assert s[..rest + 1] == [s[0]] + s[1..][..rest];
      }
    }
  }

  lemma FindAfter(prefix: string, c: char, rest: string)
    requires c !in prefix
    ensures Find(prefix + [c] + rest, c) == |prefix|
  {
    var s := prefix + [c] + rest;
    assert s[..|prefix|] == prefix;
    FindUnique(s, c, |prefix|);
  }

  lemma {:induction false} FindUnique(s: string, c: char, at: nat)
    requires at < |s| && s[at] == c && c !in s[..at]
    ensures Find(s, c) == at
  {
    if at > 0 {
      assert s[0] == s[..at][0];
      assert s[1..][..at - 1] == s[..at][1..];
      FindUnique(s[1..], c, at - 1);
    }
  }

  lemma OccursAtChar(s: string, c: char, at: int)
    requires at == -1 || OccursAt([c], s, at)
    requires forall j | 0 <= j && (at == -1 || j < at) :: !OccursAt([c], s, j)
    ensures at == Find(s, c)
  {
    var f := Find(s, c);
    FindFirst(s, c);
    if f >= 0 {
      assert s[f..f + 1] == [c];
      assert OccursAt([c], s, f);
    }
    if at >= 0 {
      assert s[at..at + 1][0] == c;
    }
  }

  /** `s.indexOf` of a one-byte needle. */
  method IndexOfByte(s: string, c: char) returns (at: int)
    ensures at == Find(s, c)
  {
    at := IndexOf(s, [c]);
    OccursAtChar(s, c, at);
  }
}
