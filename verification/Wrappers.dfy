/** Option, characters, trimming, distinct lists and string order, shared by the other modules. */
module Wrappers {
  datatype Option<+T> = None | Some(value: T)

  function Max(a: int, b: int): int { if a >= b then a else b }

  function Min(a: int, b: int): int { if a <= b then a else b }

  predicate IsDigit(c: char) { '0' <= c <= '9' }

  lemma DigitMeans(c: char)
    ensures IsDigit(c) <==> c in "0123456789"
  {
    assert IsDigit(c) ==> c in ['0', '1', '2', '3', '4', '5', '6', '7', '8', '9'];
  }

  predicate Control(c: char) { c <= '\U{1F}' || c == '\U{7F}' }

  ghost predicate Distinct<T>(s: seq<T>) {
    forall i, j :: 0 <= i < j < |s| ==> s[i] != s[j]
  }

  lemma {:induction false} DistinctCount<T>(s: seq<T>)
    requires Distinct(s)
    ensures |set x | x in s| == |s|
  {
    if |s| > 0 {
      DistinctCount(s[1..]);
      assert s == [s[0]] + s[1..];
      assert (set x | x in s) == {s[0]} + (set x | x in s[1..]);
    }
  }

  /** How often `x` occurs. */
  function Times<T(==)>(s: seq<T>, x: T): nat {
    if |s| == 0 then 0 else (if s[0] == x then 1 else 0) + Times(s[1..], x)
  }

  lemma {:induction false} TimesConcat<T>(a: seq<T>, b: seq<T>, x: T)
    ensures Times(a + b, x) == Times(a, x) + Times(b, x)
  {
    if |a| == 0 {
      assert a + b == b;
    } else {
      assert (a + b)[1..] == a[1..] + b;
      TimesConcat(a[1..], b, x);
    }
  }

  lemma {:induction false} TimesWhenDistinct<T>(s: seq<T>, x: T)
    requires Distinct(s)
    ensures Times(s, x) == if x in s then 1 else 0
  {
    if |s| > 0 {
      TimesWhenDistinct(s[1..], x);
      assert s == [s[0]] + s[1..] && s[0] !in s[1..];
    }
  }

  /** The characters that `trim` strips and `\s` matches. */
  predicate IsWhitespace(c: char) {
    c == ' ' || '\t' <= c <= '\r' || c == '\U{A0}' || c == '\U{1680}' || '\U{2000}' <= c <= '\U{200A}'
    || c == '\U{2028}' || c == '\U{2029}' || c == '\U{202F}' || c == '\U{205F}' || c == '\U{3000}' || c == '\U{FEFF}'
  }

  function TrimStart(s: string): (r: string)
    ensures r == "" || !IsWhitespace(r[0])
    ensures |r| <= |s| && r == s[|s| - |r|..]
  {
    if |s| > 0 && IsWhitespace(s[0]) then TrimStart(s[1..]) else s
  }

  function TrimEnd(s: string): (r: string)
    ensures r == "" || !IsWhitespace(r[|r| - 1])
    ensures |r| <= |s| && r == s[..|r|]
  {
    if |s| > 0 && IsWhitespace(s[|s| - 1]) then TrimEnd(s[..|s| - 1]) else s
  }

  function Trim(s: string): (r: string)
    ensures r == "" || (!IsWhitespace(r[0]) && !IsWhitespace(r[|r| - 1]))
  {
    TrimEnd(TrimStart(s))
  }

  /** Nothing but whitespace. */
  predicate Blank(s: string) { |s| == 0 || (IsWhitespace(s[0]) && Blank(s[1..])) }

  lemma {:induction false} BlankMeans(s: string)
    ensures Blank(s) <==> forall c :: c in s ==> IsWhitespace(c)
  {
    if |s| > 0 {
      BlankMeans(s[1..]);
      assert s == [s[0]] + s[1..];
    }
  }

  /** Trimming takes whitespace off both ends and nothing else. */
  lemma TrimMeans(s: string)
    ensures var start := TrimStart(s);
      && |start| <= |s| && start == s[|s| - |start|..] && Blank(s[..|s| - |start|])
      && |Trim(s)| <= |start| && Trim(s) == start[..|Trim(s)|] && Blank(start[|Trim(s)|..])
  {
    TrimStartMeans(s);
    TrimEndMeans(TrimStart(s));
  }

  lemma {:induction false} TrimStartMeans(s: string)
    ensures Blank(s[..|s| - |TrimStart(s)|])
  {
    if |s| > 0 && IsWhitespace(s[0]) {
      TrimStartMeans(s[1..]);
      var n := |s| - |TrimStart(s)|;
      assert s[..n][1..] == s[1..][..n - 1];
    }
  }

  lemma {:induction false} TrimEndMeans(s: string)
    ensures Blank(s[|TrimEnd(s)|..])
  {
    if |s| > 0 && IsWhitespace(s[|s| - 1]) {
      var n, last := |TrimEnd(s)|, |s| - 1;
      TrimEndMeans(s[..last]);
      BlankGrows(s[..last][n..], s[last]);
      assert s[n..] == s[..last][n..] + [s[last]];
    }
  }

  /** Nothing is left if and only if there was nothing but whitespace. */
  lemma TrimEmpty(s: string)
    ensures Trim(s) == "" <==> forall c :: c in s ==> IsWhitespace(c)
  {
    BlankMeans(s);
    TrimStartEmpty(s);
    if TrimStart(s) != "" {
      TrimEndKeeps(TrimStart(s));
    }
  }

  lemma {:induction false} TrimStartEmpty(s: string)
    ensures TrimStart(s) == "" <==> Blank(s)
  {
    if |s| > 0 && IsWhitespace(s[0]) {
      TrimStartEmpty(s[1..]);
    }
  }

  lemma {:induction false} TrimEndKeeps(s: string)
    requires |s| > 0 && !IsWhitespace(s[0])
    ensures TrimEnd(s) != ""
  {
    if IsWhitespace(s[|s| - 1]) {
      TrimEndKeeps(s[..|s| - 1]);
    }
  }

  lemma {:induction false} BlankGrows(s: string, c: char)
    requires Blank(s) && IsWhitespace(c)
    ensures Blank(s + [c])
  {
    if |s| > 0 {
      BlankGrows(s[1..], c);
      assert (s + [c])[1..] == s[1..] + [c];
    }
  }

  /** The `<` of strings. */
  predicate Less(a: string, b: string) {
    if |b| == 0 then false
    else if |a| == 0 then true
    else if a[0] != b[0] then a[0] < b[0]
    else Less(a[1..], b[1..])
  }

  lemma {:induction false} LessIsTotal(a: string, b: string)
    ensures !Less(a, a)
    ensures a != b ==> Less(a, b) || Less(b, a)
    ensures !(Less(a, b) && Less(b, a))
    decreases |a| + |b|
  {
    if |a| > 0 && |b| > 0 {
      LessIsTotal(a[1..], b[1..]);
      assert a == [a[0]] + a[1..] && b == [b[0]] + b[1..];
    } else if |a| > 0 {
      LessIsTotal(a[1..], b);
    }
  }

  lemma {:induction false} LessIsTransitive(a: string, b: string, c: string)
    requires Less(a, b) && Less(b, c)
    ensures Less(a, c)
  {
    if |a| > 0 && a[0] == b[0] == c[0] {
      LessIsTransitive(a[1..], b[1..], c[1..]);
    }
  }

  /** At `k` the strings first differ, and `a` has the smaller character. */
  ghost predicate Smaller(a: string, b: string, k: nat) {
    k < |a| && k < |b| && a[..k] == b[..k] && a[k] < b[k]
  }

  lemma SmallerTail(a: string, b: string, k: nat)
    requires |a| > 0 && |b| > 0
    ensures Smaller(a, b, k + 1) <==> a[0] == b[0] && Smaller(a[1..], b[1..], k)
  {
    if k + 1 < |a| && k + 1 < |b| {
      assert a[..k + 1] == [a[0]] + a[1..][..k] && b[..k + 1] == [b[0]] + b[1..][..k];
    }
  }

  /** `a` is a shorter beginning of `b`, or has the smaller character where the two first differ. */
  ghost predicate Before(a: string, b: string) {
    (|a| < |b| && a == b[..|a|]) || exists k: nat :: Smaller(a, b, k)
  }

  lemma {:induction false} LessMeans(a: string, b: string)
    ensures Less(a, b) <==> Before(a, b)
  {
    if |a| > 0 && |b| > 0 {
      BeforeStep(a, b);
      if a[0] == b[0] {
        LessMeans(a[1..], b[1..]);
      }
    } else if |b| > 0 {
      assert b[..0] == a;
    }
  }

  lemma BeforeStep(a: string, b: string)
    requires |a| > 0 && |b| > 0
    ensures Before(a, b) <==> a[0] < b[0] || (a[0] == b[0] && Before(a[1..], b[1..]))
  {
    PrefixStep(a, b);
    assert Smaller(a, b, 0) <==> a[0] < b[0];
    if k: nat :| Smaller(a, b, k) {
      if k > 0 {
        SmallerTail(a, b, k - 1);
      }
    }
    if k: nat :| Smaller(a[1..], b[1..], k) {
      SmallerTail(a, b, k);
    }
  }

  lemma PrefixStep(a: string, b: string)
    requires |a| > 0 && |b| > 0
    ensures |a| < |b| && a == b[..|a|] <==> |a[1..]| < |b[1..]| && a[0] == b[0] && a[1..] == b[1..][..|a[1..]|]
  {
    if |a| < |b| {
      assert b[..|a|] == [b[0]] + b[1..][..|a[1..]|] && a == [a[0]] + a[1..];
    }
  }
}
