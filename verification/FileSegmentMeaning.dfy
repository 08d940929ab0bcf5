/** What the chain of replacements does, said without it: one pass over the characters, and the
    alphabet, the reserved names, the storage keys and the display names in literals. */
module FileSegmentMeaning {
  import opened Wrappers
  import opened FileSegments

  // ----- One pass -----

  /** What a character of a name becomes: letters, whitespace and dots stay, all else is a dash. */
  function Mark(c: char, unicode: char -> bool): char {
    if IsLetter(c, unicode) || IsWhitespace(c) || c == '.' then c else '-'
  }

  /** A dot after a dot and a dash after a dash are dropped. */
  function Put(m: char, rest: string): string {
    if (m == '.' || m == '-') && rest != "" && rest[0] == m then rest else [m] + rest
  }

  /** The whole filter in one pass: control characters go, the others are marked and put down. */
  function OnePass(s: string, unicode: char -> bool): string {
    if |s| == 0 then ""
    else if Control(s[0]) then OnePass(s[1..], unicode)
    else Put(Mark(s[0], unicode), OnePass(s[1..], unicode))
  }

  /** The pass on a string without control characters. */
  function Marked(s: string, unicode: char -> bool): string {
    if |s| == 0 then "" else Put(Mark(s[0], unicode), Marked(s[1..], unicode))
  }

  lemma {:induction false} ControlGoesFirst(s: string, unicode: char -> bool)
    ensures Marked(RemoveControl(s), unicode) == OnePass(s, unicode)
  {
    if |s| > 0 {
      ControlGoesFirst(s[1..], unicode);
      assert ([s[0]] + RemoveControl(s[1..]))[1..] == RemoveControl(s[1..]);
      assert "" + RemoveControl(s[1..]) == RemoveControl(s[1..]);
    }
  }

  lemma MarkedCons(c: char, s: string, unicode: char -> bool)
    ensures Marked([c] + s, unicode) == Put(Mark(c, unicode), Marked(s, unicode))
  {
    assert ([c] + s)[1..] == s;
  }

  lemma MarkedStart(s: string, unicode: char -> bool)
    requires |s| > 0
    ensures Marked(s, unicode) != "" && Marked(s, unicode)[0] == Mark(s[0], unicode)
  {
  }

  /** Runs that are marked alike may be replaced first. */
  lemma {:induction false} RunsAreInvisible(s: string, p: char -> bool, rep: char, unicode: char -> bool)
    requires rep == '.' || rep == '-'
    requires forall c :: p(c) ==> Mark(c, unicode) == rep
    requires Mark(rep, unicode) == rep
    ensures Marked(ReplaceRuns(s, p, rep), unicode) == Marked(s, unicode)
  {
    if |s| > 0 {
      var tail := s[1..];
      RunsAreInvisible(tail, p, rep, unicode);
      if p(s[0]) && |s| > 1 && p(s[1]) {
        MarkedStart(tail, unicode);
      } else {
        MarkedCons(if p(s[0]) then rep else s[0], ReplaceRuns(tail, p, rep), unicode);
      }
    }
  }

  lemma {:induction false} ShellIsInvisible(s: string, unicode: char -> bool)
    ensures Marked(ReplaceShell(s), unicode) == Marked(s, unicode)
  {
    if |s| > 0 {
      ShellIsInvisible(s[1..], unicode);
      assert ReplaceShell(s)[1..] == ReplaceShell(s[1..]);
      ShellMark(s[0], unicode);
    }
  }

  lemma ShellMark(c: char, unicode: char -> bool)
    ensures Mark('-', unicode) == '-' && Mark('.', unicode) == '.'
    ensures Shell(c) || Slash(c) || Outside(unicode)(c) ==> Mark(c, unicode) == '-'
  {
  }

  lemma FilteredMarks(s: string, unicode: char -> bool)
    ensures Marked(Filtered(s, unicode), unicode) == OnePass(s, unicode)
  {
    var a := RemoveControl(s);
    var b := ReplaceRuns(a, Slash, '-');
    var c := ReplaceRuns(b, IsDot, '.');
    forall x
      ensures Mark('-', unicode) == '-' && Mark('.', unicode) == '.'
      ensures Shell(x) || Slash(x) || Outside(unicode)(x) ==> Mark(x, unicode) == '-'
    {
      ShellMark(x, unicode);
    }
    ControlGoesFirst(s, unicode);
    RunsAreInvisible(a, Slash, '-', unicode);
    RunsAreInvisible(b, IsDot, '.', unicode);
    ShellIsInvisible(c, unicode);
    RunsAreInvisible(ReplaceShell(c), Outside(unicode), '-', unicode);
  }

  /** On what the filter leaves, marking is collapsing dashes. */
  lemma {:induction false} MarkedCollapses(s: string, unicode: char -> bool)
    requires Spelled(s, unicode) && NoPair(s, '.')
    ensures Marked(s, unicode) == Collapsed(s)
  {
    if |s| > 0 {
      NoPairTail(s, '.');
      SpelledTail(s, unicode);
      MarkedCollapses(s[1..], unicode);
      RunsFrom(s[1..], IsDash, '-');
      AllowedMark(s[0], unicode);
    }
  }

  lemma SpelledTail(s: string, unicode: char -> bool)
    requires |s| > 0 && Spelled(s, unicode)
    ensures Spelled(s[1..], unicode) && Allowed(s[0], unicode)
  {
    assert forall i :: 0 <= i < |s| - 1 ==> s[1..][i] == s[i + 1];
  }

  lemma AllowedMark(c: char, unicode: char -> bool)
    requires Allowed(c, unicode)
    ensures Mark(c, unicode) == c
  {
  }

  // ----- Stripping before or after -----

  lemma {:induction false} StripStartCommutes(s: string)
    ensures Collapsed(StripStart(s)) == StripStart(Collapsed(s))
  {
    if |s| > 0 && Edge(s[0]) {
      StripStartCommutes(s[1..]);
      if !(IsDash(s[0]) && |s| > 1 && IsDash(s[1])) {
        StripCons(s[0], Collapsed(s[1..]));
      }
    } else if |s| > 0 {
      RunsFrom(s, IsDash, '-');
    }
  }

  lemma StripCons(c: char, s: string)
    requires Edge(c)
    ensures StripStart([c] + s) == StripStart(s)
  {
    assert ([c] + s)[1..] == s;
  }

  lemma {:induction false} CollapsedSnoc(s: string, c: char)
    ensures Collapsed(s + [c]) == if c == '-' && s != "" && s[|s| - 1] == '-' then Collapsed(s) else Collapsed(s) + [c]
  {
    assert Collapsed("") == "" && [c][1..] == "" && Collapsed([c]) == [c];
    if |s| == 0 {
      assert s + [c] == [c];
    } else {
      var tail := s[1..];
      CollapsedSnoc(tail, c);
      assert (s + [c])[1..] == tail + [c] && (s + [c])[0] == s[0] && (s + [c])[1] == if |s| > 1 then s[1] else c;
      assert |s| > 1 ==> tail[|tail| - 1] == s[|s| - 1];
      assert [s[0]] + (Collapsed(tail) + [c]) == [s[0]] + Collapsed(tail) + [c];
    }
  }

  lemma StripSnoc(s: string, c: char)
    requires Edge(c)
    ensures StripEnd(s + [c]) == StripEnd(s)
  {
    assert (s + [c])[..|s|] == s;
  }

  lemma {:induction false} StripEndCommutes(s: string)
    ensures Collapsed(StripEnd(s)) == StripEnd(Collapsed(s))
  {
    if |s| > 0 {
      var before, last := s[..|s| - 1], s[|s| - 1];
      assert s == before + [last];
      CollapsedSnoc(before, last);
      if Edge(last) {
        StripEndCommutes(before);
        StripSnoc(Collapsed(before), last);
      } else {
        NoStrip(Collapsed(before), last);
      }
    }
  }

  lemma NoStrip(s: string, c: char)
    requires !Edge(c)
    ensures StripEnd(s + [c]) == s + [c]
  {
  }

  /** Main result: the chain of replacements is one pass, stripped of dots, dashes and whitespace at
      both ends, with "file-" before a reserved name. */
  lemma NormalizeIsOnePass(value: string, unicode: char -> bool)
    ensures var t := StripEnd(StripStart(OnePass(value, unicode)));
      NormalizeFileSegment(value, unicode) == if IsReserved(t) then "file-" + t else t
  {
    var filtered := Filtered(value, unicode);
    FilteredIsSpelled(value, unicode);
    FilteredMarks(value, unicode);
    MarkedCollapses(filtered, unicode);
    TidiedIsCollapsed(filtered, unicode);
    StripEndCommutes(StripStart(filtered));
    StripStartCommutes(filtered);
    NeverDots(OnePass(value, unicode));
  }

  lemma NeverDots(s: string)
    ensures Stripped(s) != "." && Stripped(s) != ".." && !IsReserved("")
  {
    assert Edge('.');
    assert Lower("") == "";
  }

  // ----- Literals -----

  /** The characters that stay; every other one is marked with a dash. */
  lemma MarkMeans(c: char, unicode: char -> bool)
    ensures Mark(c, unicode) ==
      if 'a' <= c <= 'z' || 'A' <= c <= 'Z' || '0' <= c <= '9' || c in "_. \t\n\U{B}\U{C}\r" then c
      else if c > '\U{7F}' && (IsWhitespace(c) || unicode(c)) then c
      else '-'
  {
  }

  /** The name up to the first dot. */
  lemma {:induction false} BaseNameMeans(s: string)
    ensures BaseName(s) <= s && '.' !in BaseName(s) && (BaseName(s) == s || s[|BaseName(s)|] == '.')
  {
    if |s| > 0 && s[0] != '.' {
      BaseNameMeans(s[1..]);
      assert s == [s[0]] + s[1..];
    }
  }

  /** The reserved names: four words, and two with a digit from 1 to 9, in any case and before any
      extension. */
  lemma ReservedMeans(s: string)
    ensures var base := Lower(BaseName(s));
      IsReserved(s) <==>
        || base in ["con", "prn", "aux", "nul"]
        || exists digit :: digit in "123456789" && (base == "com" + [digit] || base == "lpt" + [digit])
  {
    Device(Lower(BaseName(s)));
  }

  lemma Device(s: string)
    ensures ReservedName(s) <==>
      || s in ["con", "prn", "aux", "nul"]
      || exists digit :: digit in "123456789" && (s == "com" + [digit] || s == "lpt" + [digit])
  {
    if |s| == 4 {
      assert s == s[..3] + [s[3]];
      Digits(s[3]);
    }
    if digit :| digit in "123456789" && (s == "com" + [digit] || s == "lpt" + [digit]) {
      assert s[..3] == "com" || s[..3] == "lpt";
    }
  }

  lemma Digits(c: char)
    ensures '1' <= c <= '9' <==> c in "123456789"
  {
    assert '1' <= c <= '9' ==> c in ['1', '2', '3', '4', '5', '6', '7', '8', '9'];
  }

  // ----- Results without letters -----

  lemma {:induction false} NoLetters(s: string, unicode: char -> bool)
    ensures Letters(s, unicode) == "" <==> forall c :: c in s ==> !IsLetter(c, unicode)
  {
    if |s| > 0 {
      NoLetters(s[1..], unicode);
      assert s == [s[0]] + s[1..];
    }
  }

  /** Main result: the segments of a storage key are the three normalised inputs, in this order, with
      a word in place of one that has no letter, digit or underscore. */
  lemma StorageKeyMeans(tenantId: string, assetId: string, name: string, unicode: char -> bool)
    ensures var parts := SplitSlash(BuildStorageKey(tenantId, assetId, name, unicode));
      && |parts| == 3
      && parts[0] == (if forall c :: c in tenantId ==> !IsLetter(c, unicode) then "tenant" else NormalizeFileSegment(tenantId, unicode))
      && parts[1] == (if forall c :: c in assetId ==> !IsLetter(c, unicode) then "asset" else NormalizeFileSegment(assetId, unicode))
      && parts[2] == (if forall c :: c in name ==> !IsLetter(c, unicode) then "download" else NormalizeFileSegment(name, unicode))
  {
    StorageKeyHasThreeSegments(tenantId, assetId, name, unicode);
    EmptyExactlyWhen(tenantId, unicode);
    EmptyExactlyWhen(assetId, unicode);
    EmptyExactlyWhen(name, unicode);
  }

  lemma EmptyExactlyWhen(value: string, unicode: char -> bool)
    ensures NormalizeFileSegment(value, unicode) == "" <==> forall c :: c in value ==> !IsLetter(c, unicode)
  {
    LettersAreKept(value, unicode);
    NoLetters(value, unicode);
  }

  // ----- Runs -----

  /** What replacing runs means: characters outside the class stay, and a run becomes one character. */
  lemma RunsMean(plain: string, run: string, rest: string, p: char -> bool, rep: char)
    requires (forall i :: 0 <= i < |plain| ==> !p(plain[i])) && (forall i :: 0 <= i < |run| ==> p(run[i]))
    requires |run| > 0 && (rest == "" || !p(rest[0]))
    ensures ReplaceRuns(plain, p, rep) == plain
    ensures ReplaceRuns(plain + (run + rest), p, rep) == plain + ([rep] + ReplaceRuns(rest, p, rep))
  {
    NothingToReplace(plain, p, rep);
    PlainStays(plain, run + rest, p, rep);
    OneRun(run, rest, p, rep);
  }

  lemma {:induction false} PlainStays(plain: string, rest: string, p: char -> bool, rep: char)
    requires forall i :: 0 <= i < |plain| ==> !p(plain[i])
    ensures ReplaceRuns(plain + rest, p, rep) == plain + ReplaceRuns(rest, p, rep)
  {
    if |plain| == 0 {
      assert plain + rest == rest;
    } else {
      PlainStays(plain[1..], rest, p, rep);
      assert (plain + rest)[1..] == plain[1..] + rest;
      assert plain + ReplaceRuns(rest, p, rep) == [plain[0]] + (plain[1..] + ReplaceRuns(rest, p, rep));
    }
  }

  lemma {:induction false} OneRun(run: string, rest: string, p: char -> bool, rep: char)
    requires |run| > 0 && (forall i :: 0 <= i < |run| ==> p(run[i])) && (rest == "" || !p(rest[0]))
    ensures ReplaceRuns(run + rest, p, rep) == [rep] + ReplaceRuns(rest, p, rep)
  {
    assert (run + rest)[1..] == run[1..] + rest;
    if |run| > 1 {
      OneRun(run[1..], rest, p, rep);
    } else {
      assert run[1..] + rest == rest;
    }
  }

  // ----- Display names -----

  /** Main result: a name is required if and only if it is blank, invalid if and only if it is not but
      has no letter, digit or underscore, and is otherwise the first 180 characters of the normalised
      name, with one blank for every run of whitespace. */
  lemma DisplayNameMeans(value: string, unicode: char -> bool)
    ensures var r := SanitizeFileName(value, unicode);
      var spaced := ReplaceRuns(NormalizeFileSegment(Trim(value), unicode), IsWhitespace, ' ');
      var blank, bare := forall c :: c in value ==> IsWhitespace(c), forall c :: c in Trim(value) ==> !IsLetter(c, unicode);
      && (r == NameRequired <==> blank)
      && (r == NameInvalid <==> !blank && bare)
      && (r.Named? <==> !bare)
      && (r.Named? ==> r.name == if |spaced| <= 180 then spaced else spaced[..180])
  {
    var segment := NormalizeFileSegment(Trim(value), unicode);
    TrimEmpty(value);
    EmptyExactlyWhen(Trim(value), unicode);
    NormalizedIsSafe(Trim(value), unicode);
    RunsFrom(segment, IsWhitespace, ' ');
    if segment != "" {
      SpacedIsNoDots(segment, unicode);
    }
  }

  lemma SpacedIsNoDots(segment: string, unicode: char -> bool)
    requires Safe(segment, unicode)
    ensures var r := ReplaceRuns(segment, IsWhitespace, ' '); r != "." && r != ".."
  {
    assert Edge('.');
    RunsFrom(segment, IsWhitespace, ' ');
  }
}
