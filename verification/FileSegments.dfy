/** File names as storage-key segments: a chain of replacements whose results are exactly the
    safe segments. */
module FileSegments {
  import opened Wrappers

  const MAX_DISPLAY_NAME_LENGTH := 180

  /** con, prn, aux, nul, com1 to com9 and lpt1 to lpt9. */
  predicate ReservedName(s: string) {
    if |s| == 3 then s == "con" || s == "prn" || s == "aux" || s == "nul"
    else |s| == 4 && (s[..3] == "com" || s[..3] == "lpt") && '1' <= s[3] <= '9'
  }

  // ----- Characters -----

  /** Letters and digits: ASCII ones, and beyond ASCII whatever the Unicode tables say. */
  predicate IsWord(c: char, unicode: char -> bool) {
    'a' <= c <= 'z' || 'A' <= c <= 'Z' || '0' <= c <= '9' || (c > '\U{7F}' && !IsWhitespace(c) && unicode(c))
  }

  predicate Allowed(c: char, unicode: char -> bool) {
    IsWord(c, unicode) || c == '.' || c == '_' || c == '-' || IsWhitespace(c)
  }

  predicate Edge(c: char) { c == '.' || c == '-' || IsWhitespace(c) }

  predicate Slash(c: char) { c == '/' || c == '\\' }

  predicate IsDot(c: char) { c == '.' }

  predicate IsDash(c: char) { c == '-' }

  function Outside(unicode: char -> bool): char -> bool { c => !Allowed(c, unicode) }

  predicate Shell(c: char) { c in "<>:\"|?*" }

  // ----- The replacements -----

  function RemoveControl(s: string): string {
    if |s| == 0 then "" else (if Control(s[0]) then "" else [s[0]]) + RemoveControl(s[1..])
  }

  /** Every maximal run of characters satisfying `p` becomes one `rep`. */
  function ReplaceRuns(s: string, p: char -> bool, rep: char): string {
    if |s| == 0 then ""
    else if !p(s[0]) then [s[0]] + ReplaceRuns(s[1..], p, rep)
    else if |s| > 1 && p(s[1]) then ReplaceRuns(s[1..], p, rep)
    else [rep] + ReplaceRuns(s[1..], p, rep)
  }

  function ReplaceShell(s: string): (r: string)
    ensures |r| == |s| && forall i :: 0 <= i < |s| ==> r[i] == if Shell(s[i]) then '-' else s[i]
  {
    seq(|s|, i requires 0 <= i < |s| => if Shell(s[i]) then '-' else s[i])
  }

  function StripStart(s: string): (r: string)
    ensures |r| <= |s| && r == s[|s| - |r|..] && (r == "" || !Edge(r[0]))
  {
    if |s| > 0 && Edge(s[0]) then StripStart(s[1..]) else s
  }

  function StripEnd(s: string): (r: string)
    ensures |r| <= |s| && r == s[..|r|] && (r == "" || !Edge(r[|r| - 1]))
  {
    if |s| > 0 && Edge(s[|s| - 1]) then StripEnd(s[..|s| - 1]) else s
  }

  function Lower(s: string): (r: string)
    ensures |r| == |s| && forall i :: 0 <= i < |s| ==> r[i] == if 'A' <= s[i] <= 'Z' then s[i] - 'A' + 'a' else s[i]
  {
    seq(|s|, i requires 0 <= i < |s| => if 'A' <= s[i] <= 'Z' then s[i] - 'A' + 'a' else s[i])
  }

  /** The part before the first dot. */
  function BaseName(s: string): string {
    if |s| == 0 || s[0] == '.' then "" else [s[0]] + BaseName(s[1..])
  }

  predicate IsReserved(s: string) { ReservedName(Lower(BaseName(s))) }

  /** Up to the replacement of everything outside the alphabet. */
  function Filtered(s: string, unicode: char -> bool): string {
    var undotted := ReplaceRuns(ReplaceRuns(RemoveControl(s), Slash, '-'), IsDot, '.');
    ReplaceRuns(ReplaceShell(undotted), Outside(unicode), '-')
  }

  function Stripped(s: string): string { StripEnd(StripStart(s)) }

  function Collapsed(s: string): string { ReplaceRuns(s, IsDash, '-') }

  /** Edges stripped, runs of dashes collapsed. */
  function Tidied(s: string): string { Trim(Collapsed(Stripped(s))) }

  function NormalizeFileSegment(value: string, unicode: char -> bool): string {
    var normalized := Tidied(Filtered(value, unicode));
    if normalized == "" || normalized == "." || normalized == ".." then ""
    else if IsReserved(normalized) then "file-" + normalized
    else normalized
  }

  // ----- Safe segments -----

  ghost predicate NoPair(s: string, c: char) {
    forall i :: 0 <= i < |s| - 1 ==> !(s[i] == c && s[i + 1] == c)
  }

  ghost predicate Spelled(s: string, unicode: char -> bool) {
    forall i :: 0 <= i < |s| ==> Allowed(s[i], unicode) && !Control(s[i])
  }

  /** Allowed characters, no "..", no "--", clean edges. */
  ghost predicate Tidy(s: string, unicode: char -> bool) {
    && |s| > 0 && Spelled(s, unicode) && NoPair(s, '.') && NoPair(s, '-')
    && !Edge(s[0]) && !Edge(s[|s| - 1])
  }

  ghost predicate Safe(s: string, unicode: char -> bool) {
    Tidy(s, unicode) && !IsReserved(s)
  }

  // ----- Runs -----

  ghost predicate From(r: string, s: string, rep: char, p: char -> bool) {
    forall i :: 0 <= i < |r| ==> r[i] == rep || (r[i] in s && !p(r[i]))
  }

  lemma {:induction false} RunsFrom(s: string, p: char -> bool, rep: char)
    ensures From(ReplaceRuns(s, p, rep), s, rep, p)
    ensures (ReplaceRuns(s, p, rep) == "") == (s == "")
    ensures |s| > 0 ==> ReplaceRuns(s, p, rep)[0] == if p(s[0]) then rep else s[0]
  {
    if |s| > 0 {
      RunsFrom(s[1..], p, rep);
      assert s == [s[0]] + s[1..];
    }
  }

  lemma NoPairTail(s: string, c: char)
    requires |s| > 0 && NoPair(s, c)
    ensures NoPair(s[1..], c)
  {
    forall i | 0 <= i < |s[1..]| - 1
      ensures !(s[1..][i] == c && s[1..][i + 1] == c)
    {
      assert s[1..][i] == s[i + 1] && s[1..][i + 1] == s[i + 1 + 1];
    }
  }

  /** A pair of equal characters outside `p` is never brought together. */
  lemma {:induction false} RunsKeepApart(s: string, p: char -> bool, rep: char, c: char)
    requires NoPair(s, c) && !p(c) && c != rep
    ensures NoPair(ReplaceRuns(s, p, rep), c)
  {
    if |s| > 0 {
      NoPairTail(s, c);
      RunsKeepApart(s[1..], p, rep, c);
      RunsFrom(s[1..], p, rep);
    }
  }

  /** Collapsing runs of `c` to `c` leaves no pair. */
  lemma {:induction false} RunsLeaveNoPair(s: string, p: char -> bool, c: char)
    requires forall x :: p(x) <==> x == c
    ensures NoPair(ReplaceRuns(s, p, c), c)
  {
    if |s| > 0 {
      RunsLeaveNoPair(s[1..], p, c);
      RunsFrom(s[1..], p, c);
    }
  }

  lemma {:induction false} RunsKeepLast(s: string, p: char -> bool, rep: char)
    requires |s| > 0 && !p(s[|s| - 1])
    ensures ReplaceRuns(s, p, rep) != "" && var r := ReplaceRuns(s, p, rep); r[|r| - 1] == s[|s| - 1]
  {
    if |s| > 1 {
      RunsKeepLast(s[1..], p, rep);
    }
  }

  lemma {:induction false} NothingToReplace(s: string, p: char -> bool, rep: char)
    requires forall i :: 0 <= i < |s| ==> !p(s[i])
    ensures ReplaceRuns(s, p, rep) == s
  {
    if |s| > 0 {
      NothingToReplace(s[1..], p, rep);
    }
  }

  lemma {:induction false} SinglesStay(s: string, p: char -> bool, c: char)
    requires NoPair(s, c) && forall x :: p(x) <==> x == c
    ensures ReplaceRuns(s, p, c) == s
  {
    if |s| > 0 {
      NoPairTail(s, c);
      SinglesStay(s[1..], p, c);
    }
  }

  lemma {:induction false} ControlIsGone(s: string)
    ensures forall i :: 0 <= i < |RemoveControl(s)| ==> !Control(RemoveControl(s)[i])
  {
    if |s| > 0 {
      ControlIsGone(s[1..]);
    }
  }

  lemma {:induction false} NoControlToRemove(s: string)
    requires forall i :: 0 <= i < |s| ==> !Control(s[i])
    ensures RemoveControl(s) == s
  {
    if |s| > 0 {
      NoControlToRemove(s[1..]);
    }
  }

  // ----- Every result is safe -----

  lemma FilteredIsSpelled(s: string, unicode: char -> bool)
    ensures Spelled(Filtered(s, unicode), unicode) && NoPair(Filtered(s, unicode), '.')
  {
    var other := Outside(unicode);
    var a := RemoveControl(s);
    var b := ReplaceRuns(a, Slash, '-');
    var c := ReplaceRuns(b, IsDot, '.');
    var d := ReplaceShell(c);
    ControlIsGone(s);
    RunsFrom(a, Slash, '-');
    RunsFrom(b, IsDot, '.');
    RunsLeaveNoPair(b, IsDot, '.');
    NoControlLeft(a, b, c, d);
    assert NoPair(d, '.');
    RunsFrom(d, other, '-');
    RunsKeepApart(d, other, '-', '.');
    var e := ReplaceRuns(d, other, '-');
    assert e == Filtered(s, unicode);
    forall i | 0 <= i < |e|
      ensures Allowed(e[i], unicode) && !Control(e[i])
    {
      assert e[i] == '-' || (e[i] in d && !other(e[i]));
    }
  }

  lemma NoControlLeft(a: string, b: string, c: string, d: string)
    requires forall i :: 0 <= i < |a| ==> !Control(a[i])
    requires forall i :: 0 <= i < |b| ==> b[i] == '-' || b[i] in a
    requires forall i :: 0 <= i < |c| ==> c[i] == '.' || c[i] in b
    requires d == ReplaceShell(c)
    ensures forall x :: x in d ==> !Control(x)
  {
    assert forall x :: x in b ==> !Control(x);
    assert forall x :: x in c ==> !Control(x);
  }

  lemma SliceKeeps(s: string, lo: nat, hi: nat, unicode: char -> bool)
    requires lo <= hi <= |s| && Spelled(s, unicode) && NoPair(s, '.')
    ensures Spelled(s[lo..hi], unicode) && NoPair(s[lo..hi], '.')
  {
    var t := s[lo..hi];
    forall i | 0 <= i < |t| - 1
      ensures !(t[i] == '.' && t[i + 1] == '.')
    {
      assert t[i] == s[lo + i] && t[i + 1] == s[lo + i + 1];
    }
  }

  lemma StripStartKeeps(s: string, unicode: char -> bool)
    requires Spelled(s, unicode) && NoPair(s, '.')
    ensures Spelled(StripStart(s), unicode) && NoPair(StripStart(s), '.')
  {
    var n := |s| - |StripStart(s)|;
    SliceKeeps(s, n, |s|, unicode);
    assert s[n..|s|] == s[n..] == StripStart(s);
  }

  lemma StripEndKeeps(s: string, unicode: char -> bool)
    requires Spelled(s, unicode) && NoPair(s, '.')
    ensures Spelled(StripEnd(s), unicode) && NoPair(StripEnd(s), '.')
    ensures StripEnd(s) != "" ==> StripEnd(s)[0] == s[0]
  {
    var n := |StripEnd(s)|;
    SliceKeeps(s, 0, n, unicode);
    assert s[0..n] == s[..n];
  }

  lemma StrippedIsTidy(s: string, unicode: char -> bool)
    requires Spelled(s, unicode) && NoPair(s, '.')
    ensures var b := Stripped(s);
      b == "" || (Spelled(b, unicode) && NoPair(b, '.') && !Edge(b[0]) && !Edge(b[|b| - 1]))
  {
    StripStartKeeps(s, unicode);
    StripEndKeeps(StripStart(s), unicode);
  }

  lemma TidiedIsTidy(s: string, unicode: char -> bool)
    requires Spelled(s, unicode) && NoPair(s, '.')
    ensures Tidied(s) == "" || Tidy(Tidied(s), unicode)
  {
    StrippedIsTidy(s, unicode);
    if Stripped(s) == "" {
      assert Collapsed("") == "" && Trim("") == "";
    } else {
      CollapsedIsTidy(Stripped(s), unicode);
      NothingToTrim(Collapsed(Stripped(s)));
    }
  }

  lemma CollapsedIsTidy(b: string, unicode: char -> bool)
    requires |b| > 0 && Spelled(b, unicode) && NoPair(b, '.') && !Edge(b[0]) && !Edge(b[|b| - 1])
    ensures Tidy(Collapsed(b), unicode)
  {
    var c := ReplaceRuns(b, IsDash, '-');
    RunsFrom(b, IsDash, '-');
    RunsKeepApart(b, IsDash, '-', '.');
    RunsLeaveNoPair(b, IsDash, '-');
    RunsKeepLast(b, IsDash, '-');
    forall i | 0 <= i < |c|
      ensures Allowed(c[i], unicode) && !Control(c[i])
    {
      assert c[i] == '-' || c[i] in b;
    }
  }

  lemma NothingToTrim(s: string)
    requires |s| > 0 && !IsWhitespace(s[0]) && !IsWhitespace(s[|s| - 1])
    ensures Trim(s) == s
  {
  }

  lemma ReservedStart(s: string)
    requires ReservedName(s)
    ensures |s| > 0 && s[0] != 'f'
  {
    assert |s| == 4 ==> s[0] == s[..3][0];
  }

  lemma PrefixedIsSafe(s: string, unicode: char -> bool)
    requires Tidy(s, unicode)
    ensures Safe("file-" + s, unicode)
  {
    var r := "file-" + s;
    assert r[0] == 'f' && r[1] == 'i' && r[2] == 'l' && r[3] == 'e' && r[4] == '-';
    assert forall i :: 5 <= i < |r| ==> r[i] == s[i - 5];
    assert BaseName(r)[0] == 'f';
    if IsReserved(r) {
      ReservedStart(Lower(BaseName(r)));
    }
  }

  /** Main result: every result is empty or safe. */
  lemma NormalizedIsSafe(value: string, unicode: char -> bool)
    ensures var r := NormalizeFileSegment(value, unicode); r == "" || Safe(r, unicode)
  {
    FilteredIsSpelled(value, unicode);
    TidiedIsTidy(Filtered(value, unicode), unicode);
    var t := Tidied(Filtered(value, unicode));
    if t != "" && IsReserved(t) {
      PrefixedIsSafe(t, unicode);
    }
  }

  /** What safety rules out. */
  lemma SafeMeans(s: string, unicode: char -> bool, i: nat)
    requires Safe(s, unicode) && i < |s|
    ensures !Slash(s[i]) && !Control(s[i]) && !Shell(s[i])
    ensures i + 1 < |s| ==> s[i..i + 2] != ".." && s[i..i + 2] != "--"
    ensures s != "." && s != ".." && !IsReserved(s)
  {
    assert Allowed(s[i], unicode) && !Control(s[i]);
    if i + 1 < |s| {
      assert s[i..i + 2][0] == s[i] && s[i..i + 2][1] == s[i + 1];
    }
  }

  // ----- Safe segments are fixed -----

  lemma SafeIsFixed(s: string, unicode: char -> bool)
    requires Safe(s, unicode)
    ensures NormalizeFileSegment(s, unicode) == s
  {
    assert StripStart(s) == s && StripEnd(s) == s;
    assert forall i :: 0 <= i < |s| ==> Allowed(s[i], unicode) && !Control(s[i]);
    NothingToFilter(s, unicode);
    SinglesStay(s, IsDash, '-');
    NothingToTrim(s);
  }

  lemma NothingToFilter(s: string, unicode: char -> bool)
    requires Spelled(s, unicode) && NoPair(s, '.')
    ensures Filtered(s, unicode) == s
  {
    NoControlToRemove(s);
    NothingToReplace(s, Slash, '-');
    SinglesStay(s, IsDot, '.');
    forall i | 0 <= i < |s|
      ensures !Shell(s[i])
    {
      assert Allowed(s[i], unicode);
    }
    assert ReplaceShell(s) == s;
    NothingToReplace(s, Outside(unicode), '-');
  }

  /** Main result: the fixed points of the normaliser are the empty string and the safe
      segments, and nothing else. */
  lemma FixedExactlyWhenSafe(s: string, unicode: char -> bool)
    ensures NormalizeFileSegment(s, unicode) == s <==> s == "" || Safe(s, unicode)
  {
    NormalizedIsSafe(s, unicode);
    if Safe(s, unicode) {
      SafeIsFixed(s, unicode);
    } else if s == "" {
      assert Filtered("", unicode) == "";
      assert Tidied("") == "";
    }
  }

  lemma NormalizeIsIdempotent(value: string, unicode: char -> bool)
    ensures var r := NormalizeFileSegment(value, unicode); NormalizeFileSegment(r, unicode) == r
  {
    NormalizedIsSafe(value, unicode);
    FixedExactlyWhenSafe(NormalizeFileSegment(value, unicode), unicode);
  }

  // ----- Nothing but separators is touched -----

  predicate IsLetter(c: char, unicode: char -> bool) { IsWord(c, unicode) || c == '_' }

  function Letter(unicode: char -> bool): char -> bool { c => IsLetter(c, unicode) }

  /** The characters of `s` that satisfy `keep`, in order. */
  function Kept(s: string, keep: char -> bool): string {
    if |s| == 0 then "" else if keep(s[0]) then [s[0]] + Kept(s[1..], keep) else Kept(s[1..], keep)
  }

  /** The letters, digits and underscores of a string, in order. */
  function Letters(s: string, unicode: char -> bool): string { Kept(s, Letter(unicode)) }

  lemma KeptCons(c: char, s: string, keep: char -> bool)
    ensures Kept([c] + s, keep) == if keep(c) then [c] + Kept(s, keep) else Kept(s, keep)
  {
    assert ([c] + s)[1..] == s;
  }

  lemma {:induction false} KeptConcat(a: string, b: string, keep: char -> bool)
    ensures Kept(a + b, keep) == Kept(a, keep) + Kept(b, keep)
  {
    if |a| == 0 {
      assert a + b == b;
    } else {
      assert (a + b)[1..] == a[1..] + b;
      KeptConcat(a[1..], b, keep);
    }
  }

  lemma {:induction false} RemoveControlKeeps(s: string, keep: char -> bool)
    requires forall c :: Control(c) ==> !keep(c)
    ensures Kept(RemoveControl(s), keep) == Kept(s, keep)
  {
    if |s| > 0 {
      RemoveControlKeeps(s[1..], keep);
      KeptCons(s[0], RemoveControl(s[1..]), keep);
      assert "" + RemoveControl(s[1..]) == RemoveControl(s[1..]);
    }
  }

  lemma {:induction false} RunsKeep(s: string, p: char -> bool, rep: char, keep: char -> bool)
    requires !keep(rep) && forall c :: p(c) ==> !keep(c)
    ensures Kept(ReplaceRuns(s, p, rep), keep) == Kept(s, keep)
  {
    if |s| > 0 {
      RunsKeep(s[1..], p, rep, keep);
      KeptCons(s[0], ReplaceRuns(s[1..], p, rep), keep);
      KeptCons(rep, ReplaceRuns(s[1..], p, rep), keep);
    }
  }

  lemma {:induction false} ShellKeeps(s: string, keep: char -> bool)
    requires !keep('-') && forall c :: Shell(c) ==> !keep(c)
    ensures Kept(ReplaceShell(s), keep) == Kept(s, keep)
  {
    if |s| > 0 {
      ShellKeeps(s[1..], keep);
      assert ReplaceShell(s)[1..] == ReplaceShell(s[1..]);
    }
  }

  lemma {:induction false} StripStartKeepsAll(s: string, keep: char -> bool)
    requires forall c :: Edge(c) ==> !keep(c)
    ensures Kept(StripStart(s), keep) == Kept(s, keep)
  {
    if |s| > 0 && Edge(s[0]) {
      StripStartKeepsAll(s[1..], keep);
    }
  }

  lemma {:induction false} StripEndKeepsAll(s: string, keep: char -> bool)
    requires forall c :: Edge(c) ==> !keep(c)
    ensures Kept(StripEnd(s), keep) == Kept(s, keep)
  {
    if |s| > 0 && Edge(s[|s| - 1]) {
      var before, last := s[..|s| - 1], s[|s| - 1];
      StripEndKeepsAll(before, keep);
      assert s == before + [last];
      KeptConcat(before, [last], keep);
      assert Kept([last], keep) == "";
    }
  }

  /** What counts as a letter is none of the separators. */
  lemma SeparatorsAreNoLetters(c: char, unicode: char -> bool)
    ensures Control(c) || Slash(c) || Shell(c) || Edge(c) || Outside(unicode)(c) ==> !IsLetter(c, unicode)
  {
  }

  lemma FilteredKeepsLetters(s: string, unicode: char -> bool)
    ensures Letters(Filtered(s, unicode), unicode) == Letters(s, unicode)
  {
    var keep := Letter(unicode);
    forall c
      ensures Control(c) || Slash(c) || Shell(c) || Edge(c) || Outside(unicode)(c) ==> !keep(c)
    {
      SeparatorsAreNoLetters(c, unicode);
    }
    var a := RemoveControl(s);
    var b := ReplaceRuns(a, Slash, '-');
    var c := ReplaceRuns(b, IsDot, '.');
    assert Edge('-') && Edge('.');
    RemoveControlKeeps(s, keep);
    RunsKeep(a, Slash, '-', keep);
    RunsKeep(b, IsDot, '.', keep);
    ShellKeeps(c, keep);
    RunsKeep(ReplaceShell(c), Outside(unicode), '-', keep);
  }

  lemma StrippedKeepsLetters(s: string, unicode: char -> bool)
    ensures Letters(Collapsed(Stripped(s)), unicode) == Letters(s, unicode)
  {
    var keep := Letter(unicode);
    forall c
      ensures Edge(c) ==> !keep(c)
    {
      SeparatorsAreNoLetters(c, unicode);
    }
    assert Edge('-');
    StripStartKeepsAll(s, keep);
    StripEndKeepsAll(StripStart(s), keep);
    RunsKeep(Stripped(s), IsDash, '-', keep);
  }

  /** On what the filter leaves there is nothing to trim after the collapse of dashes. */
  lemma TidiedIsCollapsed(s: string, unicode: char -> bool)
    requires Spelled(s, unicode) && NoPair(s, '.')
    ensures Tidied(s) == Collapsed(Stripped(s))
  {
    StrippedIsTidy(s, unicode);
    if Stripped(s) == "" {
      assert Collapsed("") == "" && Trim("") == "";
    } else {
      CollapsedIsTidy(Stripped(s), unicode);
      NothingToTrim(Collapsed(Stripped(s)));
    }
  }

  /** A tidy segment starts with a letter. */
  lemma TidyHasLetters(s: string, unicode: char -> bool)
    requires Tidy(s, unicode)
    ensures Letters(s, unicode) != ""
  {
    assert Allowed(s[0], unicode) && !Edge(s[0]);
  }

  /** `r` has the letters of `value`, apart from the word that defuses a reserved name. */
  predicate SameLetters(r: string, value: string, unicode: char -> bool) {
    || Letters(r, unicode) == Letters(value, unicode)
    || (|r| >= 5 && r[..5] == "file-" && IsReserved(r[5..]) && Letters(r, unicode) == "file" + Letters(value, unicode))
  }

  lemma TidiedLetters(value: string, unicode: char -> bool)
    ensures var tidied := Tidied(Filtered(value, unicode));
      Letters(tidied, unicode) == Letters(value, unicode) && (tidied == "" <==> Letters(value, unicode) == "")
  {
    var filtered := Filtered(value, unicode);
    FilteredIsSpelled(value, unicode);
    FilteredKeepsLetters(value, unicode);
    TidiedIsTidy(filtered, unicode);
    TidiedIsCollapsed(filtered, unicode);
    StrippedKeepsLetters(filtered, unicode);
    if Tidied(filtered) != "" {
      TidyHasLetters(Tidied(filtered), unicode);
    }
  }

  lemma LonelyDots(unicode: char -> bool)
    ensures Letters(".", unicode) == "" && Letters("..", unicode) == ""
  {
    assert "." == ['.'] + "" && ".." == ['.'] + ".";
    KeptCons('.', "", Letter(unicode));
    KeptCons('.', ".", Letter(unicode));
  }

  /** Main result: the normaliser keeps every letter, digit and underscore of the name in
      order, and a result is empty exactly when the name has none of them. */
  lemma LettersAreKept(value: string, unicode: char -> bool)
    ensures SameLetters(NormalizeFileSegment(value, unicode), value, unicode)
    ensures NormalizeFileSegment(value, unicode) == "" <==> Letters(value, unicode) == ""
  {
    TidiedLetters(value, unicode);
    LonelyDots(unicode);
    PrefixAdds(Tidied(Filtered(value, unicode)), unicode);
  }

  lemma PrefixAdds(s: string, unicode: char -> bool)
    ensures Letters("file-" + s, unicode) == "file" + Letters(s, unicode) && ("file-" + s)[..5] == "file-" && ("file-" + s)[5..] == s
  {
    var keep := Letter(unicode);
    KeptConcat("file-", s, keep);
    assert "file-" == ['f'] + (['i'] + (['l'] + (['e'] + (['-'] + ""))));
    KeptCons('-', "", keep);
    KeptCons('e', ['-'] + "", keep);
    KeptCons('l', ['e'] + (['-'] + ""), keep);
    KeptCons('i', ['l'] + (['e'] + (['-'] + "")), keep);
    KeptCons('f', ['i'] + (['l'] + (['e'] + (['-'] + ""))), keep);
  }

  // ----- Display names -----

  datatype FileName = Named(name: string) | NameRequired | NameInvalid

  function SanitizeFileName(value: string, unicode: char -> bool): FileName {
    var trimmed := Trim(value);
    if trimmed == "" then NameRequired
    else
      var normalized := ReplaceRuns(NormalizeFileSegment(trimmed, unicode), IsWhitespace, ' ');
      if normalized == "" || normalized == "." || normalized == ".." then NameInvalid
      else Named(Truncated(normalized))
  }

  function Truncated(s: string): string {
    if |s| <= MAX_DISPLAY_NAME_LENGTH then s else s[..MAX_DISPLAY_NAME_LENGTH]
  }

  /** A display name is short and path-safe, spelled in the same alphabet, without "..". */
  lemma DisplayNameIsPathSafe(value: string, unicode: char -> bool)
    requires SanitizeFileName(value, unicode).Named?
    ensures var name := SanitizeFileName(value, unicode).name;
      PathSafe(name) && |name| <= MAX_DISPLAY_NAME_LENGTH && Spelled(name, unicode) && NoPair(name, '.')
  {
    var segment := NamedSegment(value, unicode);
    NormalizedIsSafe(Trim(value), unicode);
    SpacedIsPathSafe(segment, unicode);
  }

  /** A name comes from a non-empty segment. */
  lemma NamedSegment(value: string, unicode: char -> bool) returns (segment: string)
    requires SanitizeFileName(value, unicode).Named?
    ensures segment == NormalizeFileSegment(Trim(value), unicode) && segment != ""
    ensures SanitizeFileName(value, unicode).name == Truncated(ReplaceRuns(segment, IsWhitespace, ' '))
  {
    segment := NormalizeFileSegment(Trim(value), unicode);
    assert ReplaceRuns("", IsWhitespace, ' ') == "";
  }

  lemma SpacedIsPathSafe(segment: string, unicode: char -> bool)
    requires Safe(segment, unicode)
    ensures var r := Truncated(ReplaceRuns(segment, IsWhitespace, ' '));
      PathSafe(r) && |r| <= MAX_DISPLAY_NAME_LENGTH && Spelled(r, unicode) && NoPair(r, '.')
  {
    var normalized := ReplaceRuns(segment, IsWhitespace, ' ');
    RunsFrom(segment, IsWhitespace, ' ');
    RunsKeepApart(segment, IsWhitespace, ' ', '.');
    forall i | 0 <= i < |normalized|
      ensures Allowed(normalized[i], unicode) && !Control(normalized[i]) && !Slash(normalized[i])
    {
      assert normalized[i] == ' ' || normalized[i] in segment;
    }
  }

  // ----- Storage keys -----

  function SegmentOr(value: string, fallback: string, unicode: char -> bool): string {
    var s := NormalizeFileSegment(value, unicode);
    if s == "" then fallback else s
  }

  function BuildStorageKey(tenantId: string, assetId: string, safeDisplayName: string, unicode: char -> bool): string {
    SegmentOr(tenantId, "tenant", unicode) + "/" + SegmentOr(assetId, "asset", unicode)
    + "/" + SegmentOr(safeDisplayName, "download", unicode)
  }

  function SplitSlash(s: string): (parts: seq<string>)
    ensures |parts| > 0
  {
    if |s| == 0 then [""]
    else
      var rest := SplitSlash(s[1..]);
      if s[0] == '/' then [""] + rest else [[s[0]] + rest[0]] + rest[1..]
  }

  lemma {:induction false} SplitFirst(part: string, rest: string)
    requires '/' !in part
    ensures SplitSlash(part) == [part]
    ensures SplitSlash(part + ("/" + rest)) == [part] + SplitSlash(rest)
  {
    var s := part + ("/" + rest);
    if |part| == 0 {
      assert s[1..] == rest;
    } else {
      assert s[1..] == part[1..] + ("/" + rest);
      SplitFirst(part[1..], rest);
      assert [part[0]] + part[1..] == part;
    }
  }

  predicate PathSafe(segment: string) {
    segment != "" && segment != "." && segment != ".." && '/' !in segment && '\\' !in segment
  }

  lemma SegmentIsPathSafe(value: string, fallback: string, unicode: char -> bool)
    requires PathSafe(fallback)
    ensures PathSafe(SegmentOr(value, fallback, unicode))
  {
    NormalizedIsSafe(value, unicode);
    var s := NormalizeFileSegment(value, unicode);
    if s != "" {
      SafeIsPathSafe(s, unicode);
    }
  }

  lemma SafeIsPathSafe(s: string, unicode: char -> bool)
    requires Safe(s, unicode)
    ensures PathSafe(s)
  {
    assert Edge('.');
    forall i | 0 <= i < |s|
      ensures !Slash(s[i])
    {
      assert Allowed(s[i], unicode);
    }
  }

  /** Main result: a storage key is exactly three path-safe segments, whatever the inputs. */
  lemma StorageKeyHasThreeSegments(tenantId: string, assetId: string, name: string, unicode: char -> bool)
    ensures var parts := SplitSlash(BuildStorageKey(tenantId, assetId, name, unicode));
      && |parts| == 3 && PathSafe(parts[0]) && PathSafe(parts[1]) && PathSafe(parts[2])
      && parts == [SegmentOr(tenantId, "tenant", unicode), SegmentOr(assetId, "asset", unicode), SegmentOr(name, "download", unicode)]
  {
    var a, b, c := SegmentOr(tenantId, "tenant", unicode), SegmentOr(assetId, "asset", unicode), SegmentOr(name, "download", unicode);
    FallbacksArePathSafe();
    SegmentIsPathSafe(tenantId, "tenant", unicode);
    SegmentIsPathSafe(assetId, "asset", unicode);
    SegmentIsPathSafe(name, "download", unicode);
    SplitThree(a, b, c);
  }

  lemma FallbacksArePathSafe()
    ensures PathSafe("tenant") && PathSafe("asset") && PathSafe("download")
  {
  }

  lemma SplitThree(a: string, b: string, c: string)
    requires '/' !in a && '/' !in b && '/' !in c
    ensures SplitSlash(a + "/" + b + "/" + c) == [a, b, c]
  {
    assert a + "/" + b + "/" + c == a + ("/" + (b + ("/" + c)));
    SplitFirst(a, b + ("/" + c));
    SplitFirst(b, c);
    SplitFirst(c, "");
    assert [a] + ([b] + [c]) == [a, b, c];
  }
}
