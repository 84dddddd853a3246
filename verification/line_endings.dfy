/**
 * `s.replace(/\r\n/g, "\n")`: one left-to-right pass that turns every
 * non-overlapping CR LF pair into LF.
 */
module LineEndings {

  import opened SeqFacts

  /** No carriage return is immediately followed by a line feed. */
  predicate NoCrlf(s: string) {
    forall i :: 0 <= i < |s| - 1 ==> !(s[i] == '\r' && s[i + 1] == '\n')
  }

  /** Number of CR LF pairs the left-to-right pass matches. */
  function CrlfCount(s: string): nat
    decreases |s|
  {
    if |s| < 2 then 0
    else if s[0] == '\r' && s[1] == '\n' then 1 + CrlfCount(s[2..])
    else CrlfCount(s[1..])
  }

  /** The pass itself, one position at a time from the left. */
  function Normalize(s: string): string
    decreases |s|
  {
    if |s| < 2 then s
    else if s[0] == '\r' && s[1] == '\n' then "\n" + Normalize(s[2..])
    else [s[0]] + Normalize(s[1..])
  }

  /** Each matched pair shortens the text by one character. */
  lemma {:induction false} NormalizeLength(s: string)
    ensures |Normalize(s)| == |s| - CrlfCount(s)
    decreases |s|
  {
    if |s| >= 2 {
      if s[0] == '\r' && s[1] == '\n' {
        NormalizeLength(s[2..]);
      } else {
        NormalizeLength(s[1..]);
      }
    }
  }

  /** A text without CR LF comes back as it is. */
  lemma {:induction false} NormalizeKeepsClean(s: string)
    requires NoCrlf(s)
    ensures Normalize(s) == s
    decreases |s|
  {
    if |s| >= 2 {
      assert !(s[0] == '\r' && s[1] == '\n');
      assert NoCrlf(s[1..]) by {
        forall i | 0 <= i < |s[1..]| - 1
          ensures !(s[1..][i] == '\r' && s[1..][i + 1] == '\n')
        {
          assert s[1..][i] == s[i + 1] && s[1..][i + 1] == s[i + 2];
        }
      }
      NormalizeKeepsClean(s[1..]);
      assert s == [s[0]] + s[1..];
    }
  }

  /** `k` carriage returns. */
  function Crs(k: nat): (m: multiset<char>)
    ensures m['\r'] == k
  {
    multiset{}['\r' := k]
  }

  /** The multiset balance the pass keeps: its output plus one CR per matched pair. */
  predicate KeepsBalance(s: string) {
    multiset(s) == multiset(Normalize(s)) + Crs(CrlfCount(s))
  }

  /** The balance survives a leading CR LF pair. */
  lemma BalanceAfterPair(s: string)
    requires |s| >= 2 && s[0] == '\r' && s[1] == '\n'
    requires KeepsBalance(s[2..])
    ensures KeepsBalance(s)
  {
    var rest := s[2..];
    assert s == ['\r'] + ['\n'] + rest;
    assert multiset(s) == multiset{'\r'} + multiset{'\n'} + multiset(rest);
    HeadPair(s);
    assert multiset(Normalize(s)) == multiset{'\n'} + multiset(Normalize(rest));
    assert Crs(CrlfCount(s)) == Crs(CrlfCount(rest)) + multiset{'\r'};
  }

  /** The balance survives a leading character that starts no pair. */
  lemma BalanceAfterChar(s: string)
    requires |s| >= 2 && !(s[0] == '\r' && s[1] == '\n')
    requires KeepsBalance(s[1..])
    ensures KeepsBalance(s)
  {
    var rest := s[1..];
    assert s == [s[0]] + rest;
    assert multiset(s) == multiset{s[0]} + multiset(rest);
    HeadChar(s);
    assert multiset(Normalize(s)) == multiset{s[0]} + multiset(Normalize(rest));
    assert CrlfCount(s) == CrlfCount(rest);
  }

  /** The pass only deletes carriage returns, one per matched pair; every other character keeps its count. */
  lemma {:induction false} NormalizeDeletesOneCrPerPair(s: string)
    ensures multiset(s) == multiset(Normalize(s)) + Crs(CrlfCount(s))
    decreases |s|
  {
    if |s| < 2 {
      assert Crs(0) == multiset{};
    } else if s[0] == '\r' && s[1] == '\n' {
      NormalizeDeletesOneCrPerPair(s[2..]);
      BalanceAfterPair(s);
    } else {
      NormalizeDeletesOneCrPerPair(s[1..]);
      BalanceAfterChar(s);
    }
  }

  /** A string is left unchanged exactly when it contains no CR LF pair. */
  lemma {:induction false} NormalizeFixpoint(s: string)
    ensures Normalize(s) == s <==> NoCrlf(s)
  {
    NormalizeLength(s);
    if NoCrlf(s) {
      NormalizeKeepsClean(s);
    } else {
      CrlfCountPositive(s);
    }
  }

  /** Any CR LF in the input is matched at least once by the pass. */
  lemma {:induction false} CrlfCountPositive(s: string)
    requires !NoCrlf(s)
    ensures CrlfCount(s) > 0
    decreases |s|
  {
    var i :| 0 <= i < |s| - 1 && s[i] == '\r' && s[i + 1] == '\n';
    if s[0] == '\r' && s[1] == '\n' {
    } else {
      assert s[1..][i - 1] == '\r' && s[1..][i] == '\n';
      CrlfCountPositive(s[1..]);
    }
  }

  /**
   * The pass is not idempotent: in CR CR LF only the second CR starts a
   * match, and the first CR meets the produced LF.
   */
  lemma NormalizeNotIdempotent()
    ensures Normalize("\r\r\n") == "\r\n"
    ensures Normalize(Normalize("\r\r\n")) == "\n"
  {
    assert "\r\r\n"[1..] == "\r\n";
    assert "\r\n"[2..] == "";
  }

  /** The two units of the pass: a CR LF pair becomes LF, a single character stays. */
  lemma NormalizeUnits(c: char)
    ensures Normalize("\r\n") == "\n"
    ensures Normalize([c]) == [c]
  {
  }

  /** A leading CR LF pair is replaced by LF. */
  lemma HeadPair(s: string)
    requires |s| >= 2 && s[0] == '\r' && s[1] == '\n'
    ensures Normalize(s) == "\n" + Normalize(s[2..])
  {
  }

  /** A leading character that starts no CR LF pair is kept. */
  lemma HeadChar(s: string)
    requires |s| >= 2 && !(s[0] == '\r' && s[1] == '\n')
    ensures Normalize(s) == [s[0]] + Normalize(s[1..])
  {
  }

  /** Dropping a prefix of the left operand of a concatenation. */
  lemma DropFromAppend(a: string, b: string, k: nat)
    requires k <= |a|
    ensures (a + b)[k..] == a[k..] + b
  {
  }

  /** A leading CR LF pair is replaced before the rest is processed. */
  lemma AppendAfterPair(a: string, b: string)
    requires |a| >= 2 && a[0] == '\r' && a[1] == '\n'
    requires Normalize(a[2..] + b) == Normalize(a[2..]) + Normalize(b)
    ensures Normalize(a + b) == Normalize(a) + Normalize(b)
  {
    HeadPair(a + b);
    DropFromAppend(a, b, 2);
    HeadPair(a);
    AppendAssociates("\n", Normalize(a[2..]), Normalize(b));
  }

  /** A leading character that starts no pair is kept before the rest is processed. */
  lemma AppendAfterChar(a: string, b: string)
    requires |a| >= 2 && !(a[0] == '\r' && a[1] == '\n')
    requires Normalize(a[1..] + b) == Normalize(a[1..]) + Normalize(b)
    ensures Normalize(a + b) == Normalize(a) + Normalize(b)
  {
    HeadChar(a + b);
    DropFromAppend(a, b, 1);
    HeadChar(a);
    AppendAssociates([a[0]], Normalize(a[1..]), Normalize(b));
  }

  /** A single character followed by anything but a completing LF is kept. */
  lemma AppendSingle(a: string, b: string)
    requires |a| == 1 && !(a[0] == '\r' && |b| > 0 && b[0] == '\n')
    ensures Normalize(a + b) == Normalize(a) + Normalize(b)
  {
    if |b| == 0 {
      assert a + b == a;
    } else {
      HeadChar(a + b);
      DropFromAppend(a, b, 1);
      assert a[1..] + b == b;
    }
  }

  /**
   * The pass works piecewise: normalising a concatenation normalises each
   * side, unless the cut falls inside a CR LF pair.
   */
  lemma {:induction false} NormalizeAppend(a: string, b: string)
    requires !(|a| > 0 && a[|a| - 1] == '\r' && |b| > 0 && b[0] == '\n')
    ensures Normalize(a + b) == Normalize(a) + Normalize(b)
    decreases |a|
  {
    if |a| == 0 {
      assert a + b == b;
    } else if |a| == 1 {
      AppendSingle(a, b);
    } else if a[0] == '\r' && a[1] == '\n' {
      NormalizeAppend(a[2..], b);
      AppendAfterPair(a, b);
    } else {
      NormalizeAppend(a[1..], b);
      AppendAfterChar(a, b);
    }
  }

  /** Every CR LF pair in the input, wherever it stands, becomes LF in place. */
  lemma CrlfBecomesLf(a: string, b: string)
    ensures Normalize(a + "\r\n" + b) == Normalize(a) + "\n" + Normalize(b)
  {
    NormalizeAppend(a, "\r\n");
    NormalizeUnits('\n');
    NormalizeAppend(a + "\r\n", b);
  }
}
