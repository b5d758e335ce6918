/** `parse_handwriting` in both servers: runs of `-`/`_` become one space,
    every character other than an ASCII letter or a space is deleted, and
    the words are capitalised. The TypeScript version trims and splits on
    single spaces, so empty words (and with them doubled spaces) survive;
    the Python version splits on runs of spaces. */
module Handwriting {
  import opened Catalog

  predicate IsUpper(c: char) { 'A' <= c <= 'Z' }
  predicate IsLower(c: char) { 'a' <= c <= 'z' }
  predicate IsLetter(c: char) { IsUpper(c) || IsLower(c) }
  predicate IsDash(c: char) { c == '-' || c == '_' }

  function ToUpper(c: char): char
  {
    if IsLower(c) then (c as int - 32) as char else c
  }

  function ToLower(c: char): char
  {
    if IsUpper(c) then (c as int + 32) as char else c
  }

  predicate HasLetter(s: string)
  {
    exists i :: 0 <= i < |s| && IsLetter(s[i])
  }

  /** Only ASCII letters and spaces. */
  predicate LettersAndSpaces(s: string)
  {
    forall i :: 0 <= i < |s| ==> IsLetter(s[i]) || s[i] == ' '
  }

  predicate NoSpaces(w: string)
  {
    forall i :: 0 <= i < |w| ==> w[i] != ' '
  }

  // ---------------------------------------------------------------------------
  // Cleaning, shared by both versions

  /** `replace(/[-_]+/g, " ")`: each maximal run of dashes and underscores
      becomes one space; `inRun` says the previous character was one of them. */
  function DashRunsToSpaces(s: string, inRun: bool): string
    decreases |s|
  {
    if s == [] then []
    else if IsDash(s[0]) then (if inRun then [] else [' ']) + DashRunsToSpaces(s[1..], true)
    else [s[0]] + DashRunsToSpaces(s[1..], false)
  }

  /** `replace(/[^a-zA-Z ]/g, "")`. */
  function KeepLettersAndSpaces(s: string): string
  {
    if s == [] then []
    else (if IsLetter(s[0]) || s[0] == ' ' then [s[0]] else []) + KeepLettersAndSpaces(s[1..])
  }

  function Clean(s: string): string
  {
    KeepLettersAndSpaces(DashRunsToSpaces(s, false))
  }

  // ---------------------------------------------------------------------------
  // Words

  /** JavaScript's `split(" ")`: cut at every space, keeping empty words. */
  function SplitSpaces(s: string): (r: seq<string>)
    ensures |r| >= 1
    decreases |s|
  {
    if s == [] then [[]]
    else
      var rest := SplitSpaces(s[1..]);
      if s[0] == ' ' then [[]] + rest else [[s[0]] + rest[0]] + rest[1..]
  }

  function NonEmpty(ws: seq<string>): seq<string>
  {
    if ws == [] then [] else (if ws[0] == [] then [] else [ws[0]]) + NonEmpty(ws[1..])
  }

  /** Python's `split()` on a string whose only whitespace is spaces: the
      words between runs of spaces. */
  function Words(s: string): seq<string>
  {
    NonEmpty(SplitSpaces(s))
  }

  /** `" ".join(ws)`. */
  function Join(ws: seq<string>): string
  {
    if ws == [] then [] else if |ws| == 1 then ws[0] else ws[0] + [' '] + Join(ws[1..])
  }

  function LowerAll(w: string): (r: string)
    ensures |r| == |w|
  {
    if w == [] then [] else [ToLower(w[0])] + LowerAll(w[1..])
  }

  /** `word.charAt(0).toUpperCase() + word.slice(1).toLowerCase()`, and
      Python's `word.capitalize()`. */
  function Capitalize(w: string): string
  {
    if w == [] then [] else [ToUpper(w[0])] + LowerAll(w[1..])
  }

  function CapitalizeAll(ws: seq<string>): (r: seq<string>)
    ensures |r| == |ws|
  {
    if ws == [] then [] else [Capitalize(ws[0])] + CapitalizeAll(ws[1..])
  }

  // ---------------------------------------------------------------------------
  // The two versions

  /** `.trim()`: the string has only letters and spaces by then, so only
      spaces are trimmed. */
  function TrimStart(s: string): string
  {
    if s != [] && s[0] == ' ' then TrimStart(s[1..]) else s
  }

  function TrimEnd(s: string): string
  {
    if s != [] && s[|s| - 1] == ' ' then TrimEnd(s[..|s| - 1]) else s
  }

  function Trim(s: string): string
  {
    TrimEnd(TrimStart(s))
  }

  /** The TypeScript `parse_handwriting`; `None` is `null`. */
  function ParseTs(recipeName: string): Option<string>
  {
    var cleanedName := Trim(Clean(recipeName));
    if cleanedName == [] then None
    else Some(Join(CapitalizeAll(SplitSpaces(cleanedName))))
  }

  /** The Python `parse_handwriting`. */
  function ParsePy(recipeName: string): Option<string>
  {
    var words := Words(Clean(recipeName));
    if words == [] then None
    else Some(Join(CapitalizeAll(words)))
  }

  // ---------------------------------------------------------------------------
  // Reference: title case by position

  /** Each letter is upper-cased when it starts a word (`atStart` for the
      first character, otherwise the previous character is a space) and
      lower-cased otherwise; spaces stay where they are. */
  function Titled(t: string, atStart: bool): (r: string)
    ensures |r| == |t|
  {
    seq(|t|, i requires 0 <= i < |t| =>
      if t[i] == ' ' then ' '
      else if (if i == 0 then atStart else t[i - 1] == ' ') then ToUpper(t[i])
      else ToLower(t[i]))
  }

  // ---------------------------------------------------------------------------
  // Lemmas: cleaning

  lemma {:induction false} DashRunsFacts(s: string, inRun: bool)
    ensures forall c :: c in DashRunsToSpaces(s, inRun) ==> c == ' ' || (c in s && !IsDash(c))
    ensures forall c :: c in s && IsLetter(c) ==> c in DashRunsToSpaces(s, inRun)
    ensures (forall i :: 0 <= i < |s| ==> !IsDash(s[i])) ==> DashRunsToSpaces(s, inRun) == s
    decreases |s|
  {
    if s != [] {
      var t := s[1..];
      DashRunsFacts(t, IsDash(s[0]));
      var h := if IsDash(s[0]) then (if inRun then [] else [' ']) else [s[0]];
      var r := DashRunsToSpaces(s, inRun);
      var rt := DashRunsToSpaces(t, IsDash(s[0]));
      assert r == h + rt;
      assert s == [s[0]] + t;
      forall c | c in r ensures c == ' ' || (c in s && !IsDash(c)) {
        if c !in h { assert c in rt; }
      }
      forall c | c in s && IsLetter(c) ensures c in r {
        if c != s[0] { assert c in t; assert c in rt; }
      }
      if forall i :: 0 <= i < |s| ==> !IsDash(s[i]) {
        assert forall i :: 0 <= i < |t| ==> !IsDash(t[i]) by {
          forall i | 0 <= i < |t| ensures !IsDash(t[i]) { assert t[i] == s[i + 1]; }
        }
      }
    }
  }

  lemma {:induction false} KeepFacts(s: string)
    ensures forall c :: c in KeepLettersAndSpaces(s) ==> c in s && (IsLetter(c) || c == ' ')
    ensures forall c :: c in s && IsLetter(c) ==> c in KeepLettersAndSpaces(s)
    ensures LettersAndSpaces(s) ==> KeepLettersAndSpaces(s) == s
    decreases |s|
  {
    if s != [] {
      var t := s[1..];
      KeepFacts(t);
      var h := if IsLetter(s[0]) || s[0] == ' ' then [s[0]] else [];
      var r := KeepLettersAndSpaces(s);
      assert r == h + KeepLettersAndSpaces(t);
      assert s == [s[0]] + t;
      forall c | c in r ensures c in s && (IsLetter(c) || c == ' ') {
        if c !in h { assert c in KeepLettersAndSpaces(t); }
      }
      forall c | c in s && IsLetter(c) ensures c in r {
        if c != s[0] { assert c in t; }
      }
      if LettersAndSpaces(s) {
        assert LettersAndSpaces(t) by {
          forall i | 0 <= i < |t| ensures IsLetter(t[i]) || t[i] == ' ' { assert t[i] == s[i + 1]; }
        }
      }
    }
  }

  /** Cleaning keeps every letter, leaves only letters and spaces, and is the
      identity on a string of letters and spaces. */
  lemma CleanFacts(s: string)
    ensures LettersAndSpaces(Clean(s))
    ensures HasLetter(Clean(s)) <==> HasLetter(s)
    ensures LettersAndSpaces(s) ==> Clean(s) == s
  {
    var d := DashRunsToSpaces(s, false);
    var r := KeepLettersAndSpaces(d);
    assert LettersAndSpaces(r) by {
      KeepFacts(d);
      forall i | 0 <= i < |r| ensures IsLetter(r[i]) || r[i] == ' ' { assert r[i] in r; }
    }
    assert HasLetter(s) ==> HasLetter(r) by {
      if HasLetter(s) {
        DashRunsFacts(s, false);
        KeepFacts(d);
        var i :| 0 <= i < |s| && IsLetter(s[i]);
        assert s[i] in s;
        assert s[i] in r;
        var j :| 0 <= j < |r| && r[j] == s[i];
      }
    }
    assert HasLetter(r) ==> HasLetter(s) by {
      if HasLetter(r) {
        DashRunsFacts(s, false);
        KeepFacts(d);
        var i :| 0 <= i < |r| && IsLetter(r[i]);
        assert r[i] in r;
        assert r[i] in d;
        var j :| 0 <= j < |s| && s[j] == r[i];
      }
    }
    assert LettersAndSpaces(s) ==> r == s by {
      if LettersAndSpaces(s) {
        assert forall i :: 0 <= i < |s| ==> !IsDash(s[i]);
        DashRunsFacts(s, false);
        KeepFacts(s);
      }
    }
  }

  /** What the first character contributes: a dash or underscore opens a
      run (one space) or continues one (nothing); any other character stays. */
  function DashHead(c: char, inRun: bool): string
  {
    if IsDash(c) then (if inRun then [] else [' ']) else [c]
  }

  lemma DashRunsCons(c: char, t: string, inRun: bool)
    ensures DashRunsToSpaces([c] + t, inRun) == DashHead(c, inRun) + DashRunsToSpaces(t, IsDash(c))
  {
    assert ([c] + t)[0] == c && ([c] + t)[1..] == t;
  }

  /** Whether the text right after `u` starts inside a run of dashes. */
  function RunAfter(u: string, inRun: bool): bool
  {
    if u == [] then inRun else RunAfter(u[1..], IsDash(u[0]))
  }

  /** That is: `u` ends with a dash or underscore (or `u` is empty and the
      text before it did). */
  lemma {:induction false} RunAfterLast(u: string, inRun: bool)
    ensures RunAfter(u, inRun) == if u == [] then inRun else IsDash(u[|u| - 1])
    decreases |u|
  {
    if u != [] {
      RunAfterLast(u[1..], IsDash(u[0]));
      if |u| > 1 { assert u[1..][|u| - 2] == u[|u| - 1]; }
    }
  }

  /** Replacing dash runs works piece by piece. */
  lemma {:induction false} DashRunsAppend(u: string, v: string, inRun: bool)
    ensures DashRunsToSpaces(u + v, inRun) == DashRunsToSpaces(u, inRun) + DashRunsToSpaces(v, RunAfter(u, inRun))
    decreases |u|
  {
    if u == [] {
      assert u + v == v;
    } else {
      DashRunsAppend(u[1..], v, IsDash(u[0]));
      DashRunsAppendStep(u, v, inRun);
    }
  }

  /** The inductive step of `DashRunsAppend`: from `u[1..]` to `u`. */
  lemma DashRunsAppendStep(u: string, v: string, inRun: bool)
    requires u != []
    requires DashRunsToSpaces(u[1..] + v, IsDash(u[0]))
             == DashRunsToSpaces(u[1..], IsDash(u[0])) + DashRunsToSpaces(v, RunAfter(u[1..], IsDash(u[0])))
    ensures DashRunsToSpaces(u + v, inRun) == DashRunsToSpaces(u, inRun) + DashRunsToSpaces(v, RunAfter(u, inRun))
  {
    DashRunsUnfold(u, inRun);
    DashRunsUnfoldAppend(u, v, inRun);
    ConcatAssoc(DashHead(u[0], inRun), DashRunsToSpaces(u[1..], IsDash(u[0])),
                DashRunsToSpaces(v, RunAfter(u[1..], IsDash(u[0]))));
  }

  /** One step of `DashRunsToSpaces` on a non-empty input. */
  lemma DashRunsUnfold(u: string, inRun: bool)
    requires u != []
    ensures DashRunsToSpaces(u, inRun) == DashHead(u[0], inRun) + DashRunsToSpaces(u[1..], IsDash(u[0]))
  {
  }

  /** One step of `DashRunsToSpaces` on `u + v` with `u` non-empty. */
  lemma DashRunsUnfoldAppend(u: string, v: string, inRun: bool)
    requires u != []
    ensures DashRunsToSpaces(u + v, inRun) == DashHead(u[0], inRun) + DashRunsToSpaces(u[1..] + v, IsDash(u[0]))
  {
    assert (u + v)[0] == u[0] && (u + v)[1..] == u[1..] + v;
  }

  lemma ConcatAssoc(h: string, a: string, b: string)
    ensures h + (a + b) == (h + a) + b
  {
  }

  /** A non-empty run of dashes and underscores alone becomes one space, or
      nothing when it continues a run. */
  lemma {:induction false} DashRunAlone(d: string, inRun: bool)
    requires d != [] && forall i :: 0 <= i < |d| ==> IsDash(d[i])
    ensures DashRunsToSpaces(d, inRun) == if inRun then [] else [' ']
    decreases |d|
  {
    if |d| > 1 {
      assert forall i :: 0 <= i < |d[1..]| ==> d[1..][i] == d[i + 1];
      DashRunAlone(d[1..], true);
    }
  }

  /** Text that does not start with a dash is replaced the same whether or
      not a run came just before it. */
  lemma OutsideRun(v: string)
    requires v == [] || !IsDash(v[0])
    ensures DashRunsToSpaces(v, true) == DashRunsToSpaces(v, false)
  {
  }

  lemma {:induction false} KeepAppend(u: string, v: string)
    ensures KeepLettersAndSpaces(u + v) == KeepLettersAndSpaces(u) + KeepLettersAndSpaces(v)
    decreases |u|
  {
    if u == [] {
      assert u + v == v;
    } else {
      assert (u + v)[0] == u[0] && (u + v)[1..] == u[1..] + v;
      KeepAppend(u[1..], v);
      var head := if IsLetter(u[0]) || u[0] == ' ' then [u[0]] else [];
      assert head + (KeepLettersAndSpaces(u[1..]) + KeepLettersAndSpaces(v))
             == (head + KeepLettersAndSpaces(u[1..])) + KeepLettersAndSpaces(v);
    }
  }

  /** Any character other than a letter, a space, `-` or `_` is deleted
      without leaving a gap: the text on either side is cleaned as if the
      two pieces stood alone and then joined directly. */
  lemma CleanDeletesOther(u: string, c: char, v: string)
    requires !IsLetter(c) && c != ' ' && !IsDash(c)
    ensures Clean(u + [c] + v) == Clean(u) + Clean(v)
  {
    RunAfterLast(u, false);
    DashRunsAppend(u, [c] + v, false);
    assert u + [c] + v == u + ([c] + v);
    assert ([c] + v)[1..] == v;
    var du, dv := DashRunsToSpaces(u, false), DashRunsToSpaces(v, false);
    assert DashRunsToSpaces(u + [c] + v, false) == du + ([c] + dv);
    KeepAppend(du, [c] + dv);
    KeepAppend([c], dv);
    assert ([c] + dv)[1..] == dv;
  }

  /** A maximal run of `-` and `_` anywhere becomes exactly one space
      separating the cleaned text on either side. */
  lemma CleanDashRun(u: string, d: string, v: string)
    requires d != [] && forall i :: 0 <= i < |d| ==> IsDash(d[i])
    requires u == [] || !IsDash(u[|u| - 1])
    requires v == [] || !IsDash(v[0])
    ensures Clean(u + d + v) == Clean(u) + [' '] + Clean(v)
  {
    var du, dv := DashRunsToSpaces(u, false), DashRunsToSpaces(v, false);
    DashRunBetween(u, d, v);
    KeepAppend(du, [' '] + dv);
    KeepAppend([' '], dv);
    assert KeepLettersAndSpaces([' ']) == [' '];
  }

  lemma DashRunBetween(u: string, d: string, v: string)
    requires d != [] && forall i :: 0 <= i < |d| ==> IsDash(d[i])
    requires u == [] || !IsDash(u[|u| - 1])
    requires v == [] || !IsDash(v[0])
    ensures DashRunsToSpaces(u + d + v, false)
            == DashRunsToSpaces(u, false) + ([' '] + DashRunsToSpaces(v, false))
  {
    var dv := DashRunsToSpaces(v, false);
    var w := d + v;
    assert DashRunsToSpaces(w, false) == [' '] + dv by {
      RunAfterLast(d, false);
      DashRunAlone(d, false);
      OutsideRun(v);
      DashRunsAppend(d, v, false);
    }
    assert u + d + v == u + w;
    assert DashRunsToSpaces(u + w, false) == DashRunsToSpaces(u, false) + DashRunsToSpaces(w, false) by {
      RunAfterLast(u, false);
      DashRunsAppend(u, w, false);
    }
  }



  // ---------------------------------------------------------------------------
  // Lemmas: trimming

  lemma {:induction false} TrimStartFacts(s: string)
    ensures forall c :: c in TrimStart(s) ==> c in s
    ensures TrimStart(s) != [] ==> TrimStart(s)[0] != ' '
    ensures TrimStart(s) == [] <==> forall i :: 0 <= i < |s| ==> s[i] == ' '
    ensures TrimStart(s) != [] && s != [] ==> TrimStart(s)[|TrimStart(s)| - 1] == s[|s| - 1]
    decreases |s|
  {
    if s != [] && s[0] == ' ' {
      TrimStartFacts(s[1..]);
      assert forall i :: 0 < i < |s| ==> s[i] == s[1..][i - 1];
    }
  }

  lemma {:induction false} TrimEndFacts(s: string)
    ensures forall c :: c in TrimEnd(s) ==> c in s
    ensures TrimEnd(s) != [] ==> TrimEnd(s)[|TrimEnd(s)| - 1] != ' '
    ensures TrimEnd(s) == [] <==> forall i :: 0 <= i < |s| ==> s[i] == ' '
    ensures TrimEnd(s) != [] ==> TrimEnd(s)[0] == s[0]
    decreases |s|
  {
    if s != [] && s[|s| - 1] == ' ' {
      var p := s[..|s| - 1];
      TrimEndFacts(p);
      assert forall c :: c in p ==> c in s;
      assert forall i :: 0 <= i < |p| ==> s[i] == p[i];
    }
  }

  /** `TrimStart` removes a prefix of spaces, the first `i` characters, and
      nothing else. */
  lemma {:induction false} TrimStartInfix(s: string) returns (i: nat)
    ensures i <= |s| && TrimStart(s) == s[i..] && forall k :: 0 <= k < i ==> s[k] == ' '
    decreases |s|
  {
    if s != [] && s[0] == ' ' {
      var t := s[1..];
      var i' := TrimStartInfix(t);
      assert t[i'..] == s[i' + 1..];
      assert forall k :: 0 < k < i' + 1 ==> s[k] == t[k - 1];
      i := i' + 1;
    } else {
      assert s[0..] == s;
      i := 0;
    }
  }

  /** `TrimEnd` removes a suffix of spaces, all from index `j` on, and
      nothing else. */
  lemma {:induction false} TrimEndInfix(s: string) returns (j: nat)
    ensures j <= |s| && TrimEnd(s) == s[..j] && forall k :: j <= k < |s| ==> s[k] == ' '
    decreases |s|
  {
    if s != [] && s[|s| - 1] == ' ' {
      var t := s[..|s| - 1];
      j := TrimEndInfix(t);
      assert t[..j] == s[..j];
      assert forall k :: j <= k < |t| ==> s[k] == t[k];
    } else {
      assert s[..|s|] == s;
      j := |s|;
    }
  }

  /** The trimmed string is the input with the spaces at either end removed
      and the middle kept as it is, inner runs of spaces included; so it has
      no space at either end, and is empty exactly when the input is all
      spaces. */
  lemma TrimFacts(s: string)
    ensures exists i, j :: && 0 <= i <= j <= |s| && Trim(s) == s[i..j]
                           && (forall k :: 0 <= k < i ==> s[k] == ' ')
                           && (forall k :: j <= k < |s| ==> s[k] == ' ')
    ensures forall c :: c in Trim(s) ==> c in s
    ensures Trim(s) != [] ==> Trim(s)[0] != ' ' && Trim(s)[|Trim(s)| - 1] != ' '
    ensures Trim(s) == [] <==> forall i :: 0 <= i < |s| ==> s[i] == ' '
  {
    TrimStartFacts(s);
    TrimEndFacts(TrimStart(s));
    TrimInfix(s);
  }

  lemma TrimInfix(s: string)
    ensures exists i, j :: && 0 <= i <= j <= |s| && Trim(s) == s[i..j]
                           && (forall k :: 0 <= k < i ==> s[k] == ' ')
                           && (forall k :: j <= k < |s| ==> s[k] == ' ')
  {
    var i := TrimStartInfix(s);
    var t := s[i..];
    var j := TrimEndInfix(t);
    assert t[..j] == s[i..i + j];
    assert forall k :: i + j <= k < |s| ==> s[k] == t[k - i];
  }


  /** A string with only letters and spaces has a letter exactly when its
      trimmed form is not empty. */
  lemma TrimEmptyIffNoLetter(t: string)
    requires LettersAndSpaces(t)
    ensures Trim(t) == [] <==> !HasLetter(t)
  {
    TrimFacts(t);
    if !HasLetter(t) {
      assert forall i :: 0 <= i < |t| ==> t[i] == ' ';
    }
  }

  lemma LettersAndSpacesByMembership(s: string, t: string)
    requires LettersAndSpaces(s)
    requires forall c :: c in t ==> c in s
    ensures LettersAndSpaces(t)
  {
    forall i | 0 <= i < |t| ensures IsLetter(t[i]) || t[i] == ' ' {
      assert t[i] in s;
      var j :| 0 <= j < |s| && s[j] == t[i];
    }
  }

  // ---------------------------------------------------------------------------
  // Lemmas: splitting, joining and capitalising

  lemma JoinPrepend(x: char, w: string, ws: seq<string>)
    ensures Join([[x] + w] + ws) == [x] + Join([w] + ws)
  {
  }

  lemma JoinCons(w: string, ws: seq<string>)
    requires ws != []
    ensures Join([w] + ws) == w + [' '] + Join(ws)
  {
  }

  /** Upper-casing the first word (or lower-casing it when `atStart` is
      false), capitalising the rest and joining with single spaces is title
      case by position. */
  function CaseWords(ws: seq<string>, atStart: bool): seq<string>
  {
    if ws == [] then []
    else [if atStart then Capitalize(ws[0]) else LowerAll(ws[0])] + CapitalizeAll(ws[1..])
  }

  lemma TitledCons(c: char, rest: string, atStart: bool)
    ensures Titled([c] + rest, atStart)
            == [if c == ' ' then ' ' else if atStart then ToUpper(c) else ToLower(c)] + Titled(rest, c == ' ')
  {
  }

  lemma {:induction false} SplitJoinIsTitled(t: string, atStart: bool)
    ensures Join(CaseWords(SplitSpaces(t), atStart)) == Titled(t, atStart)
    decreases |t|
  {
    if t != [] {
      var rest := t[1..];
      var r := SplitSpaces(rest);
      assert t == [t[0]] + rest;
      TitledCons(t[0], rest, atStart);
      if t[0] == ' ' {
        SplitJoinIsTitled(rest, true);
        assert CaseWords(SplitSpaces(t), atStart) == [[]] + CapitalizeAll(r);
        assert CaseWords(r, true) == CapitalizeAll(r);
        JoinCons([], CapitalizeAll(r));
      } else {
        SplitJoinIsTitled(rest, false);
        var x := if atStart then ToUpper(t[0]) else ToLower(t[0]);
        assert CaseWords(SplitSpaces(t), atStart) == [[x] + LowerAll(r[0])] + CapitalizeAll(r[1..]);
        JoinPrepend(x, LowerAll(r[0]), CapitalizeAll(r[1..]));
      }
    }
  }

  /** Every word `split(" ")` returns is free of spaces. */
  lemma {:induction false} SplitWordsFacts(s: string)
    ensures forall k :: 0 <= k < |SplitSpaces(s)| ==> NoSpaces(SplitSpaces(s)[k])
    ensures forall k, c :: 0 <= k < |SplitSpaces(s)| && c in SplitSpaces(s)[k] ==> c in s
    decreases |s|
  {
    if s != [] {
      SplitWordsFacts(s[1..]);
      var rest := SplitSpaces(s[1..]);
      assert forall c :: c in s[1..] ==> c in s;
      if s[0] == ' ' {
        assert forall k :: 1 <= k < |SplitSpaces(s)| ==> SplitSpaces(s)[k] == rest[k - 1];
      } else {
        assert forall k :: 1 <= k < |SplitSpaces(s)| ==> SplitSpaces(s)[k] == rest[k];
        assert NoSpaces([s[0]] + rest[0]) by {
          forall i | 0 <= i < |[s[0]] + rest[0]| ensures ([s[0]] + rest[0])[i] != ' ' {
            if i > 0 { assert ([s[0]] + rest[0])[i] == rest[0][i - 1]; }
          }
        }
      }
    }
  }

  lemma {:induction false} NonEmptyFacts(ws: seq<string>)
    ensures forall k :: 0 <= k < |NonEmpty(ws)| ==> NonEmpty(ws)[k] != [] && NonEmpty(ws)[k] in ws
    ensures (forall k :: 0 <= k < |ws| ==> ws[k] != []) ==> NonEmpty(ws) == ws
    ensures NonEmpty(ws) == [] <==> forall k :: 0 <= k < |ws| ==> ws[k] == []
    decreases |ws|
  {
    if ws != [] {
      NonEmptyFacts(ws[1..]);
      assert forall k :: 0 < k < |ws| ==> ws[k] == ws[1..][k - 1];
    }
  }

  /** Splitting a single space-free word gives that word back. */
  lemma {:induction false} SplitWord(w: string)
    requires NoSpaces(w)
    ensures SplitSpaces(w) == [w]
    decreases |w|
  {
    if w != [] {
      assert w[0] != ' ';
      assert NoSpaces(w[1..]) by {
        forall i | 0 <= i < |w[1..]| ensures w[1..][i] != ' ' { assert w[1..][i] == w[i + 1]; }
      }
      SplitWord(w[1..]);
      assert [w[0]] + w[1..] == w;
    }
  }

  lemma {:induction false} SplitWordThenSpace(w: string, t: string)
    requires NoSpaces(w)
    ensures SplitSpaces(w + [' '] + t) == [w] + SplitSpaces(t)
    decreases |w|
  {
    var s := w + [' '] + t;
    if w == [] {
      assert s[1..] == t;
    } else {
      assert s[0] == w[0] && s[1..] == w[1..] + [' '] + t;
      assert w[0] != ' ';
      assert NoSpaces(w[1..]) by {
        forall i | 0 <= i < |w[1..]| ensures w[1..][i] != ' ' { assert w[1..][i] == w[i + 1]; }
      }
      SplitWordThenSpace(w[1..], t);
      assert [w[0]] + w[1..] == w;
    }
  }

  /** `split(" ")` undoes `" ".join` on space-free words. */
  lemma {:induction false} SplitJoin(ws: seq<string>)
    requires ws != [] && forall k :: 0 <= k < |ws| ==> NoSpaces(ws[k])
    ensures SplitSpaces(Join(ws)) == ws
    decreases |ws|
  {
    if |ws| == 1 {
      SplitWord(ws[0]);
    } else {
      SplitJoin(ws[1..]);
      SplitWordThenSpace(ws[0], Join(ws[1..]));
    }
  }

  lemma {:induction false} LowerAllFacts(w: string)
    ensures forall i :: 0 <= i < |w| ==> LowerAll(w)[i] == ToLower(w[i])
    decreases |w|
  {
    if w != [] {
      LowerAllFacts(w[1..]);
    }
  }

  /** A capitalised word of letters: one capital followed by small letters. */
  predicate Capitalized(w: string)
  {
    w != [] && IsUpper(w[0]) && forall i :: 1 <= i < |w| ==> IsLower(w[i])
  }

  lemma CapitalizeShape(w: string)
    requires w != [] && forall i :: 0 <= i < |w| ==> IsLetter(w[i])
    ensures Capitalized(Capitalize(w))
    ensures Capitalize(Capitalize(w)) == Capitalize(w)
  {
    LowerAllFacts(w[1..]);
    var c := Capitalize(w);
    LowerAllFacts(c[1..]);
    assert c[1..] == LowerAll(w[1..]);
    assert LowerAll(c[1..]) == c[1..];
  }

  lemma {:induction false} CapitalizeAllFacts(ws: seq<string>)
    requires forall k :: 0 <= k < |ws| ==> ws[k] != [] && forall i :: 0 <= i < |ws[k]| ==> IsLetter(ws[k][i])
    ensures forall k :: 0 <= k < |ws| ==> CapitalizeAll(ws)[k] == Capitalize(ws[k])
    ensures forall k :: 0 <= k < |ws| ==> Capitalized(CapitalizeAll(ws)[k])
    ensures CapitalizeAll(CapitalizeAll(ws)) == CapitalizeAll(ws)
    decreases |ws|
  {
    if ws != [] {
      var rest := ws[1..];
      assert forall k :: 0 < k < |ws| ==> ws[k] == rest[k - 1];
      CapitalizeAllFacts(rest);
      CapitalizeShape(ws[0]);
      var r := CapitalizeAll(ws);
      assert r == [Capitalize(ws[0])] + CapitalizeAll(rest);
      forall k | 0 < k < |ws| ensures r[k] == Capitalize(ws[k]) && Capitalized(r[k]) {
        assert r[k] == CapitalizeAll(rest)[k - 1];
      }
      assert r[1..] == CapitalizeAll(rest);
    }
  }

  /** Joining non-empty space-free words with single spaces leaves no space
      at either end and no two spaces in a row. */
  lemma {:induction false} JoinSpacing(ws: seq<string>)
    requires forall k :: 0 <= k < |ws| ==> ws[k] != [] && NoSpaces(ws[k])
    ensures var r := Join(ws);
            forall i :: 0 <= i < |r| && r[i] == ' ' ==> 0 < i < |r| - 1 && r[i + 1] != ' '
    ensures ws != [] ==> Join(ws) != []
    decreases |ws|
  {
    if |ws| > 1 {
      JoinSpacing(ws[1..]);
      var w, j := ws[0], Join(ws[1..]);
      var r := w + [' '] + j;
      forall i | 0 <= i < |r| ensures r[i] == ' ' ==> 0 < i < |r| - 1 && r[i + 1] != ' ' {
        if i < |w| { assert r[i] == w[i]; }
        else if i == |w| { assert r[i + 1] == j[0]; }
        else {
          assert r[i] == j[i - |w| - 1];
          if i + 1 < |r| { assert r[i + 1] == j[i - |w|]; }
        }
      }
    }
  }

  lemma {:induction false} JoinLettersAndSpaces(ws: seq<string>)
    requires forall k :: 0 <= k < |ws| ==> forall i :: 0 <= i < |ws[k]| ==> IsLetter(ws[k][i])
    ensures LettersAndSpaces(Join(ws))
    decreases |ws|
  {
    if |ws| > 1 {
      JoinLettersAndSpaces(ws[1..]);
      var r := ws[0] + [' '] + Join(ws[1..]);
      forall i | 0 <= i < |r| ensures IsLetter(r[i]) || r[i] == ' ' {
        if i < |ws[0]| { assert r[i] == ws[0][i]; }
        else if i > |ws[0]| { assert r[i] == Join(ws[1..])[i - |ws[0]| - 1]; }
      }
    }
  }

  // ---------------------------------------------------------------------------
  // Properties of the TypeScript version

  /** TypeScript: `null` exactly when the input holds no ASCII letter;
      otherwise the cleaned, trimmed string with each word's first letter
      upper-cased and the others lower-cased, spaces kept in place. */
  lemma ParseTsMeaning(s: string)
    ensures ParseTs(s).None? <==> !HasLetter(s)
    ensures ParseTs(s).Some? ==> ParseTs(s).value == Titled(Trim(Clean(s)), true)
  {
    var t := Trim(Clean(s));
    CleanFacts(s);
    TrimEmptyIffNoLetter(Clean(s));
    SplitJoinIsTitled(t, true);
    assert CaseWords(SplitSpaces(t), true) == CapitalizeAll(SplitSpaces(t));
  }

  /** TypeScript: the result holds only ASCII letters and spaces and has no
      space at either end. */
  lemma ParseTsShape(s: string)
    requires ParseTs(s).Some?
    ensures var r := ParseTs(s).value;
            LettersAndSpaces(r) && r != [] && r[0] != ' ' && r[|r| - 1] != ' '
  {
    ParseTsMeaning(s);
    var t := Trim(Clean(s));
    CleanFacts(s);
    TrimFacts(Clean(s));
    LettersAndSpacesByMembership(Clean(s), t);
    var r := Titled(t, true);
    forall i | 0 <= i < |r| ensures IsLetter(r[i]) || r[i] == ' ' {
      assert IsLetter(t[i]) || t[i] == ' ';
    }
  }

  lemma TitledTwice(t: string)
    ensures Titled(Titled(t, true), true) == Titled(t, true)
  {
  }

  /** TypeScript: normalising a normalised name changes nothing. */
  lemma ParseTsIdempotent(s: string)
    requires ParseTs(s).Some?
    ensures ParseTs(ParseTs(s).value) == ParseTs(s)
  {
    var r := ParseTs(s).value;
    ParseTsShape(s);
    ParseTsMeaning(s);
    CleanFacts(r);
    assert Trim(r) == r;
    assert r[0] in r;
    assert HasLetter(r);
    ParseTsMeaning(r);
    TitledTwice(Trim(Clean(s)));
  }

  // ---------------------------------------------------------------------------
  // Properties of the Python version

  lemma WordsFacts(t: string)
    ensures forall k :: 0 <= k < |Words(t)| ==> Words(t)[k] != [] && NoSpaces(Words(t)[k])
    ensures forall k, c :: 0 <= k < |Words(t)| && c in Words(t)[k] ==> c in t
  {
    SplitWordsFacts(t);
    NonEmptyFacts(SplitSpaces(t));
    forall k | 0 <= k < |Words(t)| ensures NoSpaces(Words(t)[k]) && forall c :: c in Words(t)[k] ==> c in t {
      var j :| 0 <= j < |SplitSpaces(t)| && SplitSpaces(t)[j] == Words(t)[k];
    }
  }

  /** The words of a cleaned name are non-empty runs of letters; there are
      none exactly when the name holds no letter. */
  lemma CleanWords(s: string)
    ensures forall k :: 0 <= k < |Words(Clean(s))| ==>
              Words(Clean(s))[k] != [] && forall i :: 0 <= i < |Words(Clean(s))[k]| ==> IsLetter(Words(Clean(s))[k][i])
    ensures Words(Clean(s)) == [] <==> !HasLetter(s)
  {
    var t := Clean(s);
    CleanFacts(s);
    WordsFacts(t);
    forall k, i | 0 <= k < |Words(t)| && 0 <= i < |Words(t)[k]| ensures IsLetter(Words(t)[k][i]) {
      var c := Words(t)[k][i];
      assert c in Words(t)[k];
      assert c in t;
      var j :| 0 <= j < |t| && t[j] == c;
    }
    SplitWordsFacts(t);
    NonEmptyFacts(SplitSpaces(t));
    if HasLetter(t) {
      var j :| 0 <= j < |t| && IsLetter(t[j]);
      SplitHasChar(t, j);
      var k :| 0 <= k < |SplitSpaces(t)| && t[j] in SplitSpaces(t)[k];
      assert SplitSpaces(t)[k] != [];
    }
    if Words(t) != [] {
      var w := Words(t)[0];
      assert IsLetter(w[0]);
      assert w[0] in t;
      var j :| 0 <= j < |t| && t[j] == w[0];
    }
  }

  /** Every non-space character lands in some word of `split(" ")`. */
  lemma {:induction false} SplitHasChar(s: string, j: nat)
    requires j < |s| && s[j] != ' '
    ensures exists k :: 0 <= k < |SplitSpaces(s)| && s[j] in SplitSpaces(s)[k]
    decreases |s|
  {
    var rest := SplitSpaces(s[1..]);
    if j == 0 {
      assert s[0] in SplitSpaces(s)[0];
    } else {
      SplitHasChar(s[1..], j - 1);
      var k :| 0 <= k < |rest| && s[1..][j - 1] in rest[k];
      if s[0] == ' ' {
        assert rest[k] == SplitSpaces(s)[k + 1];
      } else if k == 0 {
        assert s[j] in SplitSpaces(s)[0];
      } else {
        assert rest[k] == SplitSpaces(s)[k];
      }
    }
  }

  /** Python: `None` exactly when the input holds no ASCII letter; otherwise
      capitalised words of letters joined by single spaces, with no space at
      either end and no two in a row. */
  lemma ParsePyShape(s: string)
    ensures ParsePy(s).None? <==> !HasLetter(s)
    ensures ParsePy(s).Some? ==>
              var r := ParsePy(s).value;
              && LettersAndSpaces(r) && r != []
              && (forall i :: 0 <= i < |r| && r[i] == ' ' ==> 0 < i < |r| - 1 && r[i + 1] != ' ')
              && forall k :: 0 <= k < |Words(r)| ==> Capitalized(Words(r)[k])
  {
    CleanWords(s);
    var ws := Words(Clean(s));
    if ws != [] {
      CapitalizeAllFacts(ws);
      var cs := CapitalizeAll(ws);
      forall k | 0 <= k < |cs| ensures cs[k] != [] && NoSpaces(cs[k]) && forall i :: 0 <= i < |cs[k]| ==> IsLetter(cs[k][i]) {
        assert Capitalized(cs[k]);
      }
      JoinSpacing(cs);
      JoinLettersAndSpaces(cs);
      SplitJoin(cs);
      NonEmptyFacts(cs);
    }
  }

  /** Python: normalising a normalised name changes nothing. */
  lemma ParsePyIdempotent(s: string)
    requires HasLetter(s)
    ensures ParsePy(s).Some? && ParsePy(ParsePy(s).value) == ParsePy(s)
  {
    CleanWords(s);
    var ws := Words(Clean(s));
    CapitalizeAllFacts(ws);
    var cs := CapitalizeAll(ws);
    var r := Join(cs);
    forall k | 0 <= k < |cs| ensures cs[k] != [] && NoSpaces(cs[k]) && forall i :: 0 <= i < |cs[k]| ==> IsLetter(cs[k][i]) {
      assert Capitalized(cs[k]);
    }
    JoinLettersAndSpaces(cs);
    CleanFacts(r);
    SplitJoin(cs);
    NonEmptyFacts(cs);
    assert Words(Clean(r)) == cs;
  }

  lemma {:induction false} NonEmptyAppend(a: seq<string>, b: seq<string>)
    ensures NonEmpty(a + b) == NonEmpty(a) + NonEmpty(b)
    decreases |a|
  {
    if a != [] {
      assert (a + b)[0] == a[0] && (a + b)[1..] == a[1..] + b;
      NonEmptyAppend(a[1..], b);
      var head := if a[0] == [] then [] else [a[0]];
      assert NonEmpty(a + b) == head + (NonEmpty(a[1..]) + NonEmpty(b));
    } else {
      assert a + b == b;
    }
  }

  /** A trailing space adds one empty word at the end of `split(" ")`. */
  lemma {:induction false} SplitSnocSpace(p: string)
    ensures SplitSpaces(p + [' ']) == SplitSpaces(p) + [[]]
    decreases |p|
  {
    if p != [] {
      assert (p + [' '])[1..] == p[1..] + [' '];
      SplitSnocSpace(p[1..]);
    }
  }

  /** Spaces at either end only add empty words, which `split()` drops. */
  lemma {:induction false} WordsTrimStart(s: string)
    ensures Words(TrimStart(s)) == Words(s)
    decreases |s|
  {
    if s != [] && s[0] == ' ' {
      WordsTrimStart(s[1..]);
    }
  }

  lemma {:induction false} WordsTrimEnd(s: string)
    ensures Words(TrimEnd(s)) == Words(s)
    decreases |s|
  {
    if s != [] && s[|s| - 1] == ' ' {
      var p := s[..|s| - 1];
      WordsTrimEnd(p);
      assert s == p + [' '];
      SplitSnocSpace(p);
      NonEmptyAppend(SplitSpaces(p), [[]]);
    }
  }

  /** Capitalising keeps a word empty or non-empty, and free of spaces. */
  lemma {:induction false} CapitalizeAllWords(ws: seq<string>)
    ensures NonEmpty(CapitalizeAll(ws)) == CapitalizeAll(NonEmpty(ws))
    ensures (forall k :: 0 <= k < |ws| ==> NoSpaces(ws[k])) ==>
              forall k :: 0 <= k < |ws| ==> NoSpaces(CapitalizeAll(ws)[k])
    decreases |ws|
  {
    if ws != [] {
      CapitalizeAllWords(ws[1..]);
      var w, rest := ws[0], ws[1..];
      var cs := CapitalizeAll(ws);
      assert cs[0] == Capitalize(w) && cs[1..] == CapitalizeAll(rest);
      if w != [] {
        LowerAllFacts(w[1..]);
        assert ([w] + NonEmpty(rest))[1..] == NonEmpty(rest);
        assert NonEmpty(cs) == [cs[0]] + NonEmpty(cs[1..]);
      } else {
        assert NonEmpty(ws) == NonEmpty(rest);
        assert NonEmpty(cs) == NonEmpty(cs[1..]);
      }
      if forall k :: 0 <= k < |ws| ==> NoSpaces(ws[k]) {
        assert forall k :: 1 <= k < |ws| ==> ws[k] == ws[1..][k - 1];
        assert NoSpaces(Capitalize(w)) by {
          forall i | 0 <= i < |Capitalize(w)| ensures Capitalize(w)[i] != ' ' {
            assert w[i] != ' ';
          }
        }
        assert forall k :: 1 <= k < |ws| ==> CapitalizeAll(ws)[k] == CapitalizeAll(ws[1..])[k - 1];
      }
    }
  }

  /** Python's result is the TypeScript result with every run of spaces
      collapsed to one: the two agree on when there is a result, and the
      Python words are the non-empty TypeScript words. */
  lemma ParsePyMeaning(s: string)
    ensures ParsePy(s).Some? <==> ParseTs(s).Some?
    ensures ParsePy(s).Some? ==> ParsePy(s).value == Join(Words(ParseTs(s).value))
  {
    ParsePyShape(s);
    ParseTsMeaning(s);
    var c := Clean(s);
    var t := Trim(c);
    if t != [] {
      var split := SplitSpaces(t);
      SplitWordsFacts(t);
      CapitalizeAllWords(split);
      SplitJoin(CapitalizeAll(split));
      assert Words(ParseTs(s).value) == CapitalizeAll(Words(t));
      WordsTrimStart(c);
      WordsTrimEnd(TrimStart(c));
    }
  }

  // ---------------------------------------------------------------------------
  // Worked examples

  /** Python: another character between letters is deleted without
      splitting the word... */
  lemma OtherCharacterDeleted()
    ensures ParsePy("a1b") == Some("Ab")
  {
    CleanSamples();
    SplitWord("ab");
    assert Words("ab") == ["ab"];
    assert LowerAll("b") == "b";
    assert Capitalize("ab") == "Ab";
    assert CapitalizeAll(["ab"]) == ["Ab"];
  }

  /** ... while a run of dashes and underscores separates words. */
  lemma DashRunSeparates()
    ensures ParsePy("a-_b") == Some("A B")
  {
    CleanSamples();
    SplitWord("b");
    SplitWordThenSpace("a", "b");
    assert "a b" == "a" + [' '] + "b";
    assert Words("a b") == ["a", "b"];
    TwoWords();
  }

  lemma TwoWords()
    ensures CapitalizeAll(["a", "b"]) == ["A", "B"]
    ensures Join(["A", "B"]) == "A B"
  {
    assert Capitalize("a") == "A" && Capitalize("b") == "B";
    assert ["a", "b"][1..] == ["b"] && ["b"][1..] == [];
    assert CapitalizeAll(["b"]) == ["B"];
    assert ["A", "B"][1..] == ["B"];
  }

  lemma CleanSamples()
    ensures Clean("a1b") == "ab"
    ensures Clean("a-_b") == "a b"
  {
  }



  /** An inner double space: TypeScript keeps it (an empty word between
      the two spaces)... */
  lemma DoubleSpaceTs()
    ensures ParseTs("a  b") == Some("A  B")
  {
    var t := "a  b";
    assert Clean(t) == t by {
      assert LettersAndSpaces(t);
      CleanFacts(t);
    }
    assert Trim(t) == t;
    assert ParseTs(t) == Some(Titled(t, true)) by {
      assert IsLetter(t[0]);
      ParseTsMeaning(t);
    }
    assert Titled(t, true) == "A  B";
  }

  /** ... while Python's `split()` collapses it. */
  lemma DoubleSpacePy()
    ensures ParsePy("a  b") == Some("A B")
  {
    assert LettersAndSpaces("a  b");
    CleanFacts("a  b");
    WordsOfDoubleSpace();
    TwoWords();
  }

  lemma WordsOfDoubleSpace()
    ensures Words("a  b") == ["a", "b"]
  {
    SplitWord("b");
    SplitWordThenSpace("", "b");
    SplitWordThenSpace("a", " b");
    assert "a  b" == "a" + [' '] + " b" && " b" == [] + [' '] + "b";
    var parts := SplitSpaces("a  b");
    assert parts == ["a", "", "b"];
    assert parts[1..] == ["", "b"] && parts[1..][1..] == ["b"] && ["b"][1..] == [];
    assert NonEmpty(["b"]) == ["b"];
    assert NonEmpty(["", "b"]) == ["b"];
  }
}
