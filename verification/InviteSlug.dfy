/**
 The path of a seller's invite link: how free text becomes a slug, and what slugs are.
 */
module InviteSlug {
  import opened Text

  predicate SlugChar(c: char) {
    'a' <= c <= 'z' || '0' <= c <= '9'
  }

  // ---------------------------------------------------------------------------------------
  // The pipeline
  // ---------------------------------------------------------------------------------------

  /** `toLowerCase`, as far as slugs go: beside A-Z only the Kelvin sign and the dotted capital I become
      letters of a slug, the latter followed by a combining dot. */
  function LowerChar(c: char): string {
    if 'A' <= c <= 'Z' then [c - 'A' + 'a']
    else if c == '\U{212A}' then "k"
    else if c == '\U{0130}' then ['i', '\U{0307}']
    else [c]
  }

  function Lower(s: string): string {
    if s == "" then "" else LowerChar(s[0]) + Lower(s[1..])
  }

  /** `replace(/[^a-z0-9]+/g, '-')`: one hyphen for each stretch of other characters, put at its end. */
  function Collapse(s: string): string {
    if s == "" then ""
    else if SlugChar(s[0]) then [s[0]] + Collapse(s[1..])
    else if |s| > 1 && !SlugChar(s[1]) then Collapse(s[1..])
    else "-" + Collapse(s[1..])
  }

  function StripFront(s: string): string {
    if s != "" && s[0] == '-' then StripFront(s[1..]) else s
  }

  function StripBack(s: string): string {
    if s != "" && s[|s| - 1] == '-' then StripBack(s[..|s| - 1]) else s
  }

  /** `replace(/^-+|-+$/g, '')` */
  function StripHyphens(s: string): string {
    StripBack(StripFront(s))
  }

  function Slug(raw: string): string {
    StripHyphens(Collapse(Lower(Trim(raw))))
  }

  // ---------------------------------------------------------------------------------------
  // What it amounts to: the runs of letters and digits, joined by hyphens
  // ---------------------------------------------------------------------------------------

  function Runs(s: string): (r: seq<string>)
    ensures s != "" && SlugChar(s[0]) ==> r != []
  {
    if s == "" then []
    else
      var rest := Runs(s[1..]);
      if !SlugChar(s[0]) then rest
      else if |s| > 1 && SlugChar(s[1]) then [[s[0]] + rest[0]] + rest[1..]
      else [[s[0]]] + rest
  }

  function Join(runs: seq<string>): string {
    if runs == [] then ""
    else if |runs| == 1 then runs[0]
    else runs[0] + "-" + Join(runs[1..])
  }

  predicate AllSlugChars(s: string) {
    forall i | 0 <= i < |s| :: SlugChar(s[i])
  }

  predicate AreRuns(runs: seq<string>) {
    forall i | 0 <= i < |runs| :: runs[i] != "" && AllSlugChars(runs[i])
  }

  lemma {:induction false} RunsAreRuns(s: string)
    ensures AreRuns(Runs(s))
  {
    if s != "" { RunsAreRuns(s[1..]); }
  }

  lemma {:induction false} JoinEdges(runs: seq<string>)
    requires AreRuns(runs) && runs != []
    ensures Join(runs) != "" && SlugChar(Join(runs)[0]) && SlugChar(Join(runs)[|Join(runs)| - 1])
  {
    if |runs| > 1 { JoinEdges(runs[1..]); }
  }

  lemma {:induction false} RunsOfOthers(s: string)
    requires forall i | 0 <= i < |s| :: !SlugChar(s[i])
    ensures Runs(s) == []
  {
    if s != "" { RunsOfOthers(s[1..]); }
  }

  lemma JoinGrows(c: char, runs: seq<string>)
    requires runs != []
    ensures Join([[c] + runs[0]] + runs[1..]) == [c] + Join(runs)
  {
    var grown := [[c] + runs[0]] + runs[1..];
    assert grown[1..] == runs[1..];
    if |runs| > 1 {
      assert [c] + runs[0] + "-" + Join(runs[1..]) == [c] + (runs[0] + "-" + Join(runs[1..]));
    }
  }

  lemma JoinStarts(c: char, runs: seq<string>)
    ensures Join([[c]] + runs) == [c] + if runs == [] then "" else "-" + Join(runs)
  {
    assert ([[c]] + runs)[1..] == runs;
  }

  function Hyphen(present: bool): string {
    if present then "-" else ""
  }

  /** The joined runs of a text, with a hyphen at an end where the text does not end in a run. */
  function Outline(s: string): string {
    if s == "" then ""
    else if Runs(s) == [] then "-"
    else Hyphen(!SlugChar(s[0])) + (Join(Runs(s)) + Hyphen(!SlugChar(s[|s| - 1])))
  }

  lemma OutlineInsideRun(s: string)
    requires |s| > 1 && SlugChar(s[0]) && SlugChar(s[1])
    ensures Outline(s) == [s[0]] + Outline(s[1..])
  {
    var rest := s[1..];
    var tail := Hyphen(!SlugChar(s[|s| - 1]));
    JoinGrows(s[0], Runs(rest));
    assert ([s[0]] + Join(Runs(rest))) + tail == [s[0]] + (Join(Runs(rest)) + tail);
    assert "" + (Join(Runs(rest)) + tail) == Join(Runs(rest)) + tail;
    assert "" + ([s[0]] + (Join(Runs(rest)) + tail)) == [s[0]] + (Join(Runs(rest)) + tail);
  }

  lemma OutlineAfterRun(s: string)
    requires s != "" && SlugChar(s[0]) && (|s| > 1 ==> !SlugChar(s[1]))
    ensures Outline(s) == [s[0]] + Outline(s[1..])
  {
    var rest := s[1..];
    JoinStarts(s[0], Runs(rest));
    var tail := Hyphen(!SlugChar(s[|s| - 1]));
    if rest == "" {
      assert [s[0]] + "" + "" == [s[0]];
    } else if Runs(rest) == [] {
      if SlugChar(rest[|rest| - 1]) { LastRun(rest); }
      assert [s[0]] + "" == [s[0]];
    } else {
      assert ([s[0]] + ("-" + Join(Runs(rest)))) + tail == [s[0]] + ("-" + (Join(Runs(rest)) + tail));
    }
    assert "" + ([s[0]] + Outline(rest)) == [s[0]] + Outline(rest);
  }

  /** Collapsing yields the outline. */
  lemma {:induction false} CollapseIsOutline(s: string)
    ensures Collapse(s) == Outline(s)
  {
    if s != "" {
      CollapseIsOutline(s[1..]);
      if SlugChar(s[0]) {
        if |s| > 1 && SlugChar(s[1]) { OutlineInsideRun(s); } else { OutlineAfterRun(s); }
      }
    }
  }

  lemma {:induction false} LastRun(s: string)
    requires s != "" && SlugChar(s[|s| - 1])
    ensures Runs(s) != []
  {
    if !SlugChar(s[0]) { LastRun(s[1..]); }
  }

  lemma StripFrontOnce(s: string)
    requires s == "" || s[0] != '-'
    ensures StripFront("-" + s) == s && StripFront(s) == s
  {
    assert ("-" + s)[1..] == s;
  }

  lemma StripBackOnce(s: string)
    requires s == "" || s[|s| - 1] != '-'
    ensures StripBack(s + "-") == s && StripBack(s) == s
  {
    assert (s + "-")[..|s|] == s;
  }

  lemma StripEdges(front: bool, middle: string, back: bool)
    requires middle != "" ==> middle[0] != '-' && middle[|middle| - 1] != '-'
    requires middle == "" ==> !back
    ensures StripHyphens(Hyphen(front) + (middle + Hyphen(back))) == middle
  {
    var left := middle + Hyphen(back);
    StripFrontOnce(left);
    assert !front ==> Hyphen(front) + left == left;
    StripBackOnce(middle);
    assert !back ==> left == middle;
  }

  lemma {:induction false} RunsDropLast(s: string, c: char)
    requires !SlugChar(c)
    ensures Runs(s + [c]) == Runs(s)
  {
    if s == "" {
      assert (s + [c])[1..] == "";
    } else {
      assert (s + [c])[1..] == s[1..] + [c];
      RunsDropLast(s[1..], c);
    }
  }

  lemma {:induction false} LowerLast(s: string, c: char)
    ensures Lower(s + [c]) == Lower(s) + LowerChar(c)
  {
    if s == "" {
      assert (s + [c])[1..] == "";
      assert LowerChar(c) + "" == LowerChar(c);
    } else {
      assert (s + [c])[1..] == s[1..] + [c];
      LowerLast(s[1..], c);
    }
  }

  lemma SpaceIsOther(c: char)
    requires IsSpace(c)
    ensures !SlugChar(c) && LowerChar(c) == [c]
  {
  }

  lemma {:induction false} LowerKeeps(s: string)
    requires forall i | 0 <= i < |s| :: LowerChar(s[i]) == [s[i]]
    ensures Lower(s) == s
  {
    if s != "" { LowerKeeps(s[1..]); }
  }

  lemma {:induction false} TrimLeftIsRedundant(s: string)
    ensures Runs(Lower(TrimLeft(s))) == Runs(Lower(s))
  {
    if s != "" && IsSpace(s[0]) {
      TrimLeftIsRedundant(s[1..]);
      assert Lower(s)[1..] == Lower(s[1..]);
    }
  }

  lemma {:induction false} TrimRightIsRedundant(s: string)
    ensures Runs(Lower(TrimRight(s))) == Runs(Lower(s))
  {
    if s != "" && IsSpace(s[|s| - 1]) {
      var front, c := s[..|s| - 1], s[|s| - 1];
      TrimRightIsRedundant(front);
      LowerLast(front, c);
      assert s == front + [c];
      SpaceIsOther(c);
      RunsDropLast(Lower(front), c);
    }
  }

  /** The slug of any text: its runs of letters and digits, in lower case, with single hyphens between. */
  lemma SlugJoinsRuns(raw: string)
    ensures Slug(raw) == Join(Runs(Lower(raw)))
  {
    TrimLeftIsRedundant(raw);
    TrimRightIsRedundant(TrimLeft(raw));
    CollapseIsOutline(Lower(Trim(raw)));
    OutlineStripped(Lower(Trim(raw)));
  }

  lemma OutlineStripped(s: string)
    ensures StripHyphens(Outline(s)) == Join(Runs(s))
  {
    RunsAreRuns(s);
    if Runs(s) == [] {
      StripFrontOnce("");
      assert "-" + "" == "-";
    } else {
      JoinEdges(Runs(s));
      StripEdges(!SlugChar(s[0]), Join(Runs(s)), !SlugChar(s[|s| - 1]));
    }
  }

  // ---------------------------------------------------------------------------------------
  // Slugs
  // ---------------------------------------------------------------------------------------

  /** Letters, digits and hyphens, with no hyphen at an end or beside another. */
  predicate IsSlug(s: string) {
    && (forall i | 0 <= i < |s| :: SlugChar(s[i]) || s[i] == '-')
    && (s != "" ==> s[0] != '-' && s[|s| - 1] != '-')
    && (forall i | 0 <= i < |s| - 1 :: s[i] == '-' ==> s[i + 1] != '-')
  }

  lemma {:induction false} JoinIsSlug(runs: seq<string>)
    requires AreRuns(runs)
    ensures IsSlug(Join(runs))
  {
    if |runs| > 1 {
      JoinIsSlug(runs[1..]);
      JoinEdges(runs);
      JoinEdges(runs[1..]);
      var tail := Join(runs[1..]);
      var s := Join(runs);
      var n := |runs[0]|;
      assert s == runs[0] + "-" + tail;
      forall i | 0 <= i < |s| ensures SlugChar(s[i]) || s[i] == '-' {
        if i > n { assert s[i] == tail[i - n - 1]; }
      }
      forall i | 0 <= i < |s| - 1 && s[i] == '-' ensures s[i + 1] != '-' {
        if i == n { assert s[i + 1] == tail[0]; }
        if i > n { assert s[i] == tail[i - n - 1] && s[i + 1] == tail[i - n]; }
      }
    }
  }

  lemma TailOfSlug(s: string, n: nat)
    requires IsSlug(s) && n <= |s| && (n < |s| ==> s[n] != '-')
    ensures IsSlug(s[n..])
  {
    var t := s[n..];
    forall i | 0 <= i < |t| - 1 && t[i] == '-' ensures t[i + 1] != '-' {
      assert s[n + i] == '-';
    }
  }

  lemma {:induction false} SlugIsItsJoin(s: string)
    requires IsSlug(s)
    ensures Join(Runs(s)) == s
    decreases |s|
  {
    if |s| == 1 {
      JoinStarts(s[0], []);
      assert s == [s[0]];
    } else if |s| > 1 && SlugChar(s[1]) {
      TailOfSlug(s, 1);
      SlugIsItsJoin(s[1..]);
      JoinGrows(s[0], Runs(s[1..]));
    } else if |s| > 1 {
      assert s[1] == '-' && |s| > 2;
      TailOfSlug(s, 2);
      SlugIsItsJoin(s[2..]);
      assert s[1..][1..] == s[2..];
      JoinStarts(s[0], Runs(s[2..]));
      assert s == [s[0]] + ("-" + s[2..]);
    }
  }

  /** Text is left as it is exactly when it is a slug already; every result is one, so normalising again
      changes nothing. */
  lemma SlugIsFixedIff(raw: string)
    ensures IsSlug(Slug(raw))
    ensures Slug(raw) == raw <==> IsSlug(raw)
    ensures Slug(Slug(raw)) == Slug(raw)
  {
    SlugJoinsRuns(raw);
    RunsAreRuns(Lower(raw));
    JoinIsSlug(Runs(Lower(raw)));
    SlugsStay(Slug(raw));
    if IsSlug(raw) { SlugsStay(raw); }
  }

  lemma SlugsStay(s: string)
    requires IsSlug(s)
    ensures Slug(s) == s
  {
    LowerKeeps(s);
    SlugJoinsRuns(s);
    SlugIsItsJoin(s);
  }

  lemma {:induction false} RunsOfJoin(runs: seq<string>)
    requires AreRuns(runs)
    ensures Runs(Join(runs)) == runs
    decreases |Join(runs)|
  {
    if runs != [] {
      var c, run, rest := runs[0][0], runs[0][1..], runs[1..];
      JoinEdges(runs);
      if run != "" {
        var shrunk := [run] + rest;
        assert runs[0] == [c] + run;
        assert shrunk[1..] == rest && runs == [[c] + run] + rest;
        JoinGrows(c, shrunk);
        assert AllSlugChars(runs[0]);
        JoinEdges(shrunk);
        assert Join(runs)[1..] == Join(shrunk);
        RunsOfJoin(shrunk);
      } else {
        assert runs[0] == [c];
        assert runs == [[c]] + rest;
        JoinStarts(c, rest);
        if rest == [] {
          assert Join(runs)[1..] == "";
        } else {
          RunsOfJoin(rest);
          assert Join(runs)[1..] == "-" + Join(rest);
          assert ("-" + Join(rest))[1..] == Join(rest);
        }
      }
    }
  }

  /** Two texts collide exactly when they have the same runs of letters and digits, case aside; and a text
      is refused as empty exactly when it has none. */
  lemma SlugsCollideIff(a: string, b: string)
    ensures Slug(a) == Slug(b) <==> Runs(Lower(a)) == Runs(Lower(b))
    ensures Slug(a) == "" <==> forall i | 0 <= i < |Lower(a)| :: !SlugChar(Lower(a)[i])
  {
    SlugJoinsRuns(a);
    SlugJoinsRuns(b);
    RunsAreRuns(Lower(a));
    RunsAreRuns(Lower(b));
    RunsOfJoin(Runs(Lower(a)));
    RunsOfJoin(Runs(Lower(b)));
    if Runs(Lower(a)) == [] {
      NoRuns(Lower(a));
    } else {
      JoinEdges(Runs(Lower(a)));
      if forall i | 0 <= i < |Lower(a)| :: !SlugChar(Lower(a)[i]) { RunsOfOthers(Lower(a)); }
    }
  }

  lemma {:induction false} NoRuns(s: string)
    requires Runs(s) == []
    ensures forall i | 0 <= i < |s| :: !SlugChar(s[i])
  {
    if s != "" { NoRuns(s[1..]); }
  }

  // ---------------------------------------------------------------------------------------
  // The replacements, and what becomes of each character
  // ---------------------------------------------------------------------------------------

  /** The first replacement leaves small letters and digits alone, ... */
  lemma {:induction false} WordsStay(word: string, s: string)
    requires forall i | 0 <= i < |word| :: 'a' <= word[i] <= 'z' || '0' <= word[i] <= '9'
    ensures Collapse(word + s) == word + Collapse(s)
  {
    if word == "" {
      assert word + s == s;
    } else {
      assert (word + s)[1..] == word[1..] + s;
      WordsStay(word[1..], s);
      assert [word[0]] + (word[1..] + Collapse(s)) == word + Collapse(s);
    }
  }

  /** ... and puts one hyphen for as many other characters as there are on end. */
  lemma {:induction false} StretchesBecomeHyphens(stretch: string, s: string)
    requires stretch != "" && forall i | 0 <= i < |stretch| :: !('a' <= stretch[i] <= 'z' || '0' <= stretch[i] <= '9')
    requires s != "" ==> 'a' <= s[0] <= 'z' || '0' <= s[0] <= '9'
    ensures Collapse(stretch + s) == "-" + Collapse(s)
  {
    assert (stretch + s)[1..] == stretch[1..] + s;
    if |stretch| > 1 {
      StretchesBecomeHyphens(stretch[1..], s);
    } else {
      assert stretch[1..] + s == s;
    }
  }

  predicate AllHyphens(s: string) {
    forall i | 0 <= i < |s| :: s[i] == '-'
  }

  /** The second takes away the hyphens at both ends, and no others. */
  lemma {:induction false} EndsAreStripped(front: string, s: string, back: string)
    requires AllHyphens(front) && AllHyphens(back)
    requires s != "" ==> s[0] != '-' && s[|s| - 1] != '-'
    ensures StripHyphens(front + s + back) == s
    decreases |front| + |back|
  {
    var t := front + s + back;
    if front != "" && (s != "" || |front| > 1 || back != "") {
      assert t[1..] == front[1..] + s + back;
      EndsAreStripped(front[1..], s, back);
    } else if s == "" {
      HyphensVanish(t);
    } else {
      assert t == s + back;
      BackIsStripped(s, back);
    }
  }

  lemma {:induction false} HyphensVanish(t: string)
    requires AllHyphens(t)
    ensures StripFront(t) == ""
  {
    if t != "" { HyphensVanish(t[1..]); }
  }

  lemma {:induction false} BackIsStripped(s: string, back: string)
    requires s != "" && s[|s| - 1] != '-' && AllHyphens(back)
    ensures StripBack(s + back) == s
    decreases |back|
  {
    if back == "" {
      assert s + back == s;
    } else {
      var n := |back| - 1;
      assert (s + back)[..|s + back| - 1] == s + back[..n];
      BackIsStripped(s, back[..n]);
    }
  }

  /** What a slug keeps of a character: digits and small letters as they are, capitals as small letters. */
  function Kept(c: char): string {
    if '0' <= c <= '9' || 'a' <= c <= 'z' then [c]
    else if 'A' <= c <= 'Z' then [(c as int + 32) as char]
    else if c as int == 0x212A then "k"
    else if c as int == 0x130 then "i"
    else ""
  }

  function KeptOf(s: string): string {
    if s == "" then "" else Kept(s[0]) + KeptOf(s[1..])
  }

  function WithoutHyphens(s: string): string {
    if s == "" then "" else (if s[0] == '-' then "" else [s[0]]) + WithoutHyphens(s[1..])
  }

  lemma WithoutHyphensStep(c: char, s: string)
    ensures WithoutHyphens([c] + s) == (if c == '-' then "" else [c]) + WithoutHyphens(s)
  {
    assert ([c] + s)[1..] == s;
  }

  function LettersOf(s: string): string {
    if s == "" then "" else (if SlugChar(s[0]) then [s[0]] else "") + LettersOf(s[1..])
  }

  lemma {:induction false} LettersOfJoin(s: string)
    ensures WithoutHyphens(Join(Runs(s))) == LettersOf(s)
  {
    if s != "" {
      var c, rest := s[0], Runs(s[1..]);
      LettersOfJoin(s[1..]);
      if SlugChar(c) {
        if |s| > 1 && SlugChar(s[1]) {
          JoinGrows(c, rest);
          WithoutHyphensStep(c, Join(rest));
        } else {
          JoinStarts(c, rest);
          WithoutHyphensStep(c, if rest == [] then "" else "-" + Join(rest));
          WithoutHyphensStep('-', Join(rest));
        }
      }
    }
  }

  lemma {:induction false} LettersOfAppend(a: string, b: string)
    ensures LettersOf(a + b) == LettersOf(a) + LettersOf(b)
  {
    if a == "" {
      assert a + b == b;
    } else {
      assert (a + b)[1..] == a[1..] + b;
      LettersOfAppend(a[1..], b);
    }
  }

  lemma LettersOfOne(c: char)
    ensures LettersOf([c]) == if SlugChar(c) then [c] else ""
  {
    assert [c][1..] == "";
  }

  lemma KeptInLower(c: char)
    ensures LettersOf(LowerChar(c)) == Kept(c)
  {
    var low := LowerChar(c);
    LettersOfOne(low[0]);
    if |low| == 2 {
      assert low == [low[0]] + [low[1]];
      LettersOfOne(low[1]);
      LettersOfAppend([low[0]], [low[1]]);
    } else {
      assert low == [low[0]];
    }
  }

  lemma {:induction false} LettersOfLower(s: string)
    ensures LettersOf(Lower(s)) == KeptOf(s)
  {
    if s != "" {
      LettersOfAppend(LowerChar(s[0]), Lower(s[1..]));
      KeptInLower(s[0]);
      LettersOfLower(s[1..]);
    }
  }

  /** Hyphens aside, the slug consists of the letters and digits of the text in their order, capitals as small
      letters, and of nothing else; so the text is refused as empty exactly when it has none. */
  lemma SlugKeepsLetters(raw: string)
    ensures WithoutHyphens(Slug(raw)) == KeptOf(raw)
    ensures Slug(raw) == "" <==> KeptOf(raw) == ""
  {
    SlugJoinsRuns(raw);
    LettersOfJoin(Lower(raw));
    LettersOfLower(raw);
    SlugIsFixedIff(raw);
    if Slug(raw) != "" { WithoutHyphensStep(Slug(raw)[0], Slug(raw)[1..]); }
  }
}
