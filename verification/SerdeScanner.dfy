/** The brace-depth scanner shared by all generated parsers, and the texts it passes over whole. */
module SerdeScanner {
  predicate IsTerminator(c: char) {
    c == ';' || c == '}'
  }

  /** What one character adds to the brace depth. */
  function Delta(c: char): int {
    if c == '{' then 1 else if c == '}' then -1 else 0
  }

  /** Opening minus closing braces. */
  function Depth(s: string): int {
    if s == "" then 0 else Delta(s[0]) + Depth(s[1..])
  }

  lemma DepthStep(s: string, i: nat)
    requires 0 < i <= |s|
    ensures Depth(s[..i]) == Delta(s[0]) + Depth(s[1..][..i - 1])
  {
    assert s[..i][1..] == s[1..][..i - 1];
  }

  /** Braces are balanced, and every `;` and `}` stands inside some open brace. */
  ghost predicate Neutral(s: string) {
    && Depth(s) == 0
    && forall i | 0 <= i < |s| && IsTerminator(s[i]) :: Depth(s[..i]) > 0
  }

  /** Every closing brace has a partner before it; a `;` may stand anywhere. */
  ghost predicate Balanced(s: string) {
    && Depth(s) == 0
    && forall i | 0 <= i <= |s| :: Depth(s[..i]) >= 0
  }

  /** How many bytes the scanner passes before it stops, entered at brace depth `depth`. */
  function ScanLen(s: string, depth: nat): (k: nat)
    ensures k <= |s|
  {
    if s == "" then 0
    else if s[0] == '{' then 1 + ScanLen(s[1..], depth + 1)
    else if s[0] == '}' then if depth == 0 then 0 else 1 + ScanLen(s[1..], depth - 1)
    else if s[0] == ';' && depth == 0 then 0
    else 1 + ScanLen(s[1..], depth)
  }

  /** The position of the `;` or `}` that ends the value starting at `start`, or the end of `s`. */
  method Scan(s: string, start: int) returns (pos: int)
    requires 0 <= start <= |s|
    ensures pos == start + ScanLen(s[start..], 0)
  {
    pos := start;
    var depth := 0;
    var n := |s|;
    while pos < n
      invariant start <= pos <= n && depth >= 0
      invariant start + ScanLen(s[start..], 0) == pos + ScanLen(s[pos..], depth)
    {
      var c := s[pos];
      assert s[pos..][1..] == s[pos + 1..];
      if c == '{' {
        depth := depth + 1;
      } else if c == '}' {
        if depth == 0 {
          return;
        }
        depth := depth - 1;
      } else if c == ';' {
        if depth == 0 {
          return;
        }
      }
      pos := pos + 1;
    }
  }

  lemma {:induction false} DepthConcat(a: string, b: string)
    ensures Depth(a + b) == Depth(a) + Depth(b)
  {
    if a == "" {
      assert a + b == b;
    } else {
      assert (a + b)[1..] == a[1..] + b;
      DepthConcat(a[1..], b);
    }
  }

  /** A scan that stops before the end has passed a neutral text; one that does not has not found its end. */
  lemma {:induction false} ScanStops(s: string, depth: nat)
    ensures var k := ScanLen(s, depth);
            && (k < |s| ==> IsTerminator(s[k]) && depth + Depth(s[..k]) == 0)
            && forall i | 0 <= i < k && IsTerminator(s[i]) :: depth + Depth(s[..i]) > 0
  {
    var k := ScanLen(s, depth);
    assert Depth(s[..0]) == 0;
    if k > 0 {
      hide Depth;
      ScanStops(s[1..], depth + Delta(s[0]));
      assert k == 1 + ScanLen(s[1..], depth + Delta(s[0]));
      hide ScanLen;
      DepthStep(s, k);
      forall i | 0 <= i < k && IsTerminator(s[i])
        ensures depth + Depth(s[..i]) > 0
      {
        if i > 0 {
          DepthStep(s, i);
          assert s[1..][i - 1] == s[i];
        }
      }
    }
  }

  /** Conversely, the first terminator at depth zero is where the scan stops. */
  lemma {:induction false} ScanFinds(s: string, depth: nat, k: nat)
    requires k < |s| && IsTerminator(s[k]) && depth + Depth(s[..k]) == 0
    requires forall i | 0 <= i < k && IsTerminator(s[i]) :: depth + Depth(s[..i]) > 0
    ensures ScanLen(s, depth) == k
  {
    assert Depth(s[..0]) == 0;
    hide Depth;
    if k > 0 {
      var delta := Delta(s[0]);
      DepthStep(s, k);
      assert IsTerminator(s[0]) ==> depth + Depth(s[..0]) > 0;
      forall i | 0 <= i < k - 1 && IsTerminator(s[1..][i])
        ensures depth + delta + Depth(s[1..][..i]) > 0
      {
        DepthStep(s, i + 1);
        assert IsTerminator(s[i + 1]);
      }
      ScanFinds(s[1..], depth + delta, k - 1);
    }
  }

  /** The value that a scan carves out of `s` is neutral exactly when a terminator follows it. */
  lemma ScanCarves(s: string)
    requires ScanLen(s, 0) < |s|
    ensures Neutral(s[..ScanLen(s, 0)])
  {
    ScanStops(s, 0);
    var k := ScanLen(s, 0);
    forall i | 0 <= i < k && IsTerminator(s[..k][i])
      ensures Depth(s[..k][..i]) > 0
    {
      assert s[..k][..i] == s[..i];
    }
  }

  lemma ScanPassesNeutral(val: string, rest: string)
    requires Neutral(val) && rest != "" && IsTerminator(rest[0])
    ensures ScanLen(val + rest, 0) == |val|
  {
    var s := val + rest;
    assert s[..|val|] == val;
    forall i | 0 <= i < |val| && IsTerminator(s[i])
      ensures 0 + Depth(s[..i]) > 0
    {
      assert s[..i] == val[..i];
      assert val[i] == s[i];
    }
    ScanFinds(s, 0, |val|);
  }

  lemma NeutralConcat(a: string, b: string)
    requires Neutral(a) && Neutral(b)
    ensures Neutral(a + b)
  {
    DepthConcat(a, b);
    forall i | 0 <= i < |a + b| && IsTerminator((a + b)[i])
      ensures Depth((a + b)[..i]) > 0
    {
      if i < |a| {
        assert (a + b)[..i] == a[..i];
      } else {
        assert (a + b)[..i] == a + b[..i - |a|];
        DepthConcat(a, b[..i - |a|]);
      }
    }
  }

  lemma BalancedConcat(a: string, b: string)
    requires Balanced(a) && Balanced(b)
    ensures Balanced(a + b)
  {
    DepthConcat(a, b);
    forall i | 0 <= i <= |a + b|
      ensures Depth((a + b)[..i]) >= 0
    {
      if i < |a| {
        assert (a + b)[..i] == a[..i];
      } else {
        assert (a + b)[..i] == a + b[..i - |a|];
        DepthConcat(a, b[..i - |a|]);
      }
    }
  }

  lemma DepthPrefixStep(s: string, i: nat)
    requires i < |s|
    ensures Depth(s[..i + 1]) == Depth(s[..i]) + Depth([s[i]])
  {
    assert s[..i + 1] == s[..i] + [s[i]];
    DepthConcat(s[..i], [s[i]]);
  }

  lemma {:induction false} NeutralPrefix(s: string, i: nat)
    requires Neutral(s) && i <= |s|
    ensures Depth(s[..i]) >= 0
  {
    if i == 0 {
      assert s[..0] == "";
    } else {
      NeutralPrefix(s, i - 1);
      DepthPrefixStep(s, i - 1);
    }
  }

  lemma NeutralIsBalanced(s: string)
    requires Neutral(s)
    ensures Balanced(s)
  {
    assert s[..|s|] == s;
    forall i | 0 <= i <= |s|
      ensures Depth(s[..i]) >= 0
    {
      NeutralPrefix(s, i);
    }
  }

  /** Text with no brace and no `;` is neutral. */
  lemma {:induction false} PlainIsNeutral(s: string)
    requires '{' !in s && '}' !in s && ';' !in s
    ensures Neutral(s)
  {
    if s != "" {
      PlainIsNeutral(s[1..]);
    }
  }

  /** Braces shelter balanced text. */
  lemma BracedIsNeutral(body: string)
    requires Balanced(body)
    ensures Neutral("{" + body + "}")
  {
    var s := "{" + body + "}";
    DepthConcat("{" + body, "}");
    DepthConcat("{", body);
    assert s[..|s|] == s;
    forall i | 0 <= i < |s| && IsTerminator(s[i])
      ensures Depth(s[..i]) > 0
    {
      assert i > 0;
      assert s[..i] == "{" + body[..i - 1];
      DepthConcat("{", body[..i - 1]);
    }
  }
}
