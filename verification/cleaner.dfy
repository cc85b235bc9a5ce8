/** The clean-up chain applied to the generated text before it is split
    (app.py:48-53): delete bold markers, turn "* " and "- " bullets into the
    canonical bullet glyph, then put every bullet on a line of its own with
    the rewrite of the regular expression `([^\n])・` into `$1\n・`. */
module Cleaner {
  import opened Text

  /** The canonical bullet glyph. */
  const Bullet: char := '・'

  /* ----- Step 1: replace("**", "") ----- */

  /** Deleting every `**`: the result never contains `**` again. */
  function StripBold(s: string): (r: string)
    ensures !Occurs(r, "**")
  {
    DoubledDeletionFree(s, '*');
    Replace(s, "**", "")
  }

  /** Deleting a doubled character left to right leaves no doubled pair
      behind: a single survivor of a run is never next to another one. */
  lemma {:induction false} DoubledDeletionFree(s: string, a: char)
    ensures !Occurs(Replace(s, [a, a], []), [a, a])
    decreases |s|
  {
    var q := [a, a];
    if |s| < 2 {
      forall i: nat
        ensures !MatchesAt(s, q, i)
      {
      }
    } else if s[..2] == q {
      assert Replace(s, q, []) == Replace(s[2..], q, []);
      DoubledDeletionFree(s[2..], a);
    } else {
      var t := Replace(s[1..], q, []);
      assert Replace(s, q, []) == [s[0]] + t;
      DoubledDeletionFree(s[1..], a);
      OccursCons(s[0], t, q);
      if s[0] == a {
        assert s[1] != a;
        assert !MatchesAt(s[1..], q, 0);
        ReplaceHead(s[1..], q, []);
      }
    }
  }

  /** `k` consecutive stars. */
  function Stars(k: nat): string
    decreases k
  {
    if k == 0 then [] else ['*'] + Stars(k - 1)
  }

  /** A maximal run of `k` stars shrinks to `k % 2` stars. */
  lemma {:induction false} StripBoldRun(k: nat, t: string)
    requires |t| == 0 || t[0] != '*'
    ensures StripBold(Stars(k) + t) == Stars(k % 2) + StripBold(t)
    decreases k
  {
    var s := Stars(k) + t;
    if k >= 2 {
      assert s == "**" + (Stars(k - 2) + t);
      assert s[..2] == "**";
      assert s[2..] == Stars(k - 2) + t;
      StripBoldRun(k - 2, t);
    } else if k == 1 {
      assert s == ['*'] + t;
      if |t| > 0 {
        assert s[..2] == ['*', t[0]];
        assert s[1..] == t;
      }
    } else {
      assert s == t;
    }
  }

  /** Any character other than a star passes through step 1 unchanged; with
      StripBoldRun this determines the step on every string. */
  lemma StripBoldOther(c: char, t: string)
    requires c != '*'
    ensures StripBold([c] + t) == [c] + StripBold(t)
  {
    var s := [c] + t;
    assert s[1..] == t;
    if |s| >= 2 {
      assert s[..2] == [c, t[0]];
    }
  }

  /* ----- Step 2: replace("* ", "・") then replace("- ", "・") ----- */

  /** Replacing a two-character literal with a single character foreign to it
      leaves no occurrence of the literal behind. */
  lemma {:induction false} GlyphReplaceFree(s: string, pat: string, c: char)
    requires |pat| == 2 && c != pat[0] && c != pat[1]
    ensures !Occurs(Replace(s, pat, [c]), pat)
    decreases |s|
  {
    if |s| < 2 {
      forall i: nat
        ensures !MatchesAt(s, pat, i)
      {
      }
    } else if s[..2] == pat {
      var t := Replace(s[2..], pat, [c]);
      assert Replace(s, pat, [c]) == [c] + t;
      GlyphReplaceFree(s[2..], pat, c);
      OccursCons(c, t, pat);
    } else {
      var t := Replace(s[1..], pat, [c]);
      assert Replace(s, pat, [c]) == [s[0]] + t;
      GlyphReplaceFree(s[1..], pat, c);
      OccursCons(s[0], t, pat);
      ReplaceHead(s[1..], pat, [c]);
      if !MatchesAt(s[1..], pat, 0) && s[0] == pat[0] {
        assert s[1] != pat[1] by {
          assert s[..2] == [s[0], s[1]];
        }
      }
    }
  }

  /** Replacing a two-character literal with a character foreign to another
      two-character literal `q` does not create `q`. */
  lemma {:induction false} GlyphReplaceKeepsFree(s: string, pat: string, c: char, q: string)
    requires |pat| == 2 && |q| == 2 && c != q[0] && c != q[1]
    ensures !Occurs(s, q) ==> !Occurs(Replace(s, pat, [c]), q)
    decreases |s|
  {
    if Occurs(s, q) || |s| < 2 {
    } else if s[..2] == pat {
      var t := Replace(s[2..], pat, [c]);
      assert Replace(s, pat, [c]) == [c] + t;
      SliceFree(s, 2, |s|, q);
      assert s[2..|s|] == s[2..];
      GlyphReplaceKeepsFree(s[2..], pat, c, q);
      OccursCons(c, t, q);
    } else {
      var t := Replace(s[1..], pat, [c]);
      assert Replace(s, pat, [c]) == [s[0]] + t;
      SliceFree(s, 1, |s|, q);
      assert s[1..|s|] == s[1..];
      GlyphReplaceKeepsFree(s[1..], pat, c, q);
      OccursCons(s[0], t, q);
      ReplaceHead(s[1..], pat, [c]);
      assert !MatchesAt(s, q, 0);
      assert s[..2] == [s[0], s[1]];
    }
  }

  /** Unifying the alternate bullets: afterwards neither "* " nor "- " is
      left, and no `**` is created. */
  function UnifyBullets(s: string): (r: string)
    ensures !Occurs(r, "* ") && !Occurs(r, "- ")
    ensures !Occurs(s, "**") ==> !Occurs(r, "**")
  {
    var u := Replace(s, "* ", [Bullet]);
    GlyphReplaceFree(s, "* ", Bullet);
    GlyphReplaceKeepsFree(s, "* ", Bullet, "**");
    GlyphReplaceKeepsFree(u, "- ", Bullet, "* ");
    GlyphReplaceFree(u, "- ", Bullet);
    GlyphReplaceKeepsFree(u, "- ", Bullet, "**");
    Replace(u, "- ", [Bullet])
  }

  /* ----- Step 3: replace(Regex("([^\n])・"), "$1\n・") ----- */

  /** One position of the rewritten text: a character of the input, or a
      line break the rewrite inserted. */
  datatype Piece = Kept(c: char) | Break

  /** The character a piece shows: an inserted break shows as a line break. */
  function Glyph(p: Piece): char {
    match p
    case Kept(c) => c
    case Break => '\n'
  }

  /** The text a trace stands for. */
  function Render(t: seq<Piece>): (r: string)
    ensures |r| == |t| && forall i :: 0 <= i < |t| ==> r[i] == Glyph(t[i])
  {
    seq(|t|, i requires 0 <= i < |t| => Glyph(t[i]))
  }

  /** The input a trace was made from: its kept characters. */
  function Original(t: seq<Piece>): string
    decreases |t|
  {
    if |t| == 0 then []
    else (if t[0].Kept? then [t[0].c] else []) + Original(t[1..])
  }

  /** The input behind a trace, one piece at a time. */
  lemma OriginalCons(p: Piece, t: seq<Piece>)
    ensures Original([p] + t) == (if p.Kept? then [p.c] else []) + Original(t)
  {
    assert ([p] + t)[1..] == t;
  }

  /** The regex rewrite as a left-to-right scan: a match is a character
      other than a line break followed by a bullet, and the scan resumes
      after the bullet, so matches never overlap. The trace records which
      line breaks were inserted; dropping them gives the input back. */
  function BreakTrace(s: string): (t: seq<Piece>)
    ensures Original(t) == s
    ensures |s| > 0 ==> |t| > 0 && t[0] == Kept(s[0])
    decreases |s|
  {
    if |s| < 2 then
      if |s| == 0 then [] else [Kept(s[0])]
    else if s[0] != '\n' && s[1] == Bullet then
      var rest := BreakTrace(s[2..]);
      OriginalCons(Kept(Bullet), rest);
      OriginalCons(Break, [Kept(Bullet)] + rest);
      OriginalCons(Kept(s[0]), [Break] + ([Kept(Bullet)] + rest));
      assert s == [s[0]] + ([s[1]] + s[2..]);
      assert [Kept(s[0]), Break, Kept(Bullet)] + rest == [Kept(s[0])] + ([Break] + ([Kept(Bullet)] + rest));
      [Kept(s[0]), Break, Kept(Bullet)] + rest
    else
      OriginalCons(Kept(s[0]), BreakTrace(s[1..]));
      assert s == [s[0]] + s[1..];
      [Kept(s[0])] + BreakTrace(s[1..])
  }

  /** The line break at position `i`, if there is one, sits right before a
      bullet and right after a kept character that is not a line break. */
  ghost predicate BreakPlacedAt(t: seq<Piece>, i: nat) {
    i < |t| && t[i] == Break ==>
      && 0 < i && i + 1 < |t| && t[i + 1] == Kept(Bullet)
      && t[i - 1].Kept? && t[i - 1].c != '\n'
  }

  /** The bullet at position `i > 0`, if there is one, follows a line break
      (inserted or kept) or another bullet. */
  ghost predicate BulletPlacedAt(t: seq<Piece>, i: nat) {
    0 < i < |t| && t[i] == Kept(Bullet) ==>
      t[i - 1] == Break || t[i - 1] == Kept('\n') || t[i - 1] == Kept(Bullet)
  }

  /** Bullets at positions `i - 1` and `i` come right after an inserted line
      break: the first of them ended a match. */
  ghost predicate AdjacentPlacedAt(t: seq<Piece>, i: nat) {
    0 < i < |t| && t[i] == Kept(Bullet) && t[i - 1] == Kept(Bullet) ==>
      i >= 2 && t[i - 2] == Break
  }

  /** A line break at `i` after the bullet at `i - 1` was not also inserted
      before that bullet. */
  ghost predicate SeparatedOnceAt(t: seq<Piece>, i: nat) {
    2 <= i < |t| && t[i] == Break && t[i - 1] == Kept(Bullet) ==> t[i - 2] != Break
  }

  /** Each inserted line break sits right before a bullet and right after a
      kept character that is not a line break. */
  ghost predicate BreaksBeforeBullets(t: seq<Piece>) {
    forall i: nat :: BreakPlacedAt(t, i)
  }

  /** Every bullet after the first position follows a line break (inserted
      or kept) or another bullet. */
  ghost predicate BulletsOnNewLines(t: seq<Piece>) {
    forall i: nat :: BulletPlacedAt(t, i)
  }

  /** Two adjacent bullets only right after an inserted line break: the
      first bullet ended a match. */
  ghost predicate AdjacentBulletsFollowBreak(t: seq<Piece>) {
    forall i: nat :: AdjacentPlacedAt(t, i)
  }

  /** A bullet that ended a match cannot start another one: matches do not
      overlap, so a bullet never has an inserted line break on both sides. */
  ghost predicate NotBothSeparated(t: seq<Piece>) {
    forall i: nat :: SeparatedOnceAt(t, i)
  }

  /** The shape of every trace the scan produces. */
  ghost predicate ScanShaped(t: seq<Piece>) {
    && BreaksBeforeBullets(t)
    && BulletsOnNewLines(t)
    && AdjacentBulletsFollowBreak(t)
    && NotBothSeparated(t)
  }

  /** Where the scan puts its line breaks. */
  lemma {:induction false} BreakTracePlacement(s: string)
    ensures BreaksBeforeBullets(BreakTrace(s))
    ensures BulletsOnNewLines(BreakTrace(s))
    ensures AdjacentBulletsFollowBreak(BreakTrace(s))
    ensures NotBothSeparated(BreakTrace(s))
  {
    BreaksPlaced(s);
    BulletsPlaced(s);
    AdjacentBulletsPlaced(s);
    SeparatedOnce(s);
  }

  /** Every line break of the scan's trace sits between a kept character
      other than a line break and a bullet. */
  lemma {:induction false} BreaksPlaced(s: string)
    ensures BreaksBeforeBullets(BreakTrace(s))
    decreases |s|
  {
    var t := BreakTrace(s);
    if |s| < 2 {
      forall i: nat
        ensures BreakPlacedAt(t, i)
      {
      }
    } else if s[0] != '\n' && s[1] == Bullet {
      var rest := BreakTrace(s[2..]);
      BreaksPlaced(s[2..]);
      assert t == [Kept(s[0]), Break, Kept(Bullet)] + rest;
      forall i: nat
        ensures BreakPlacedAt(t, i)
      {
        if 3 <= i < |t| && t[i] == Break {
          assert rest[i - 3] == Break;
          assert BreakPlacedAt(rest, i - 3);
          assert t[i + 1] == rest[i - 2] && t[i - 1] == rest[i - 4];
        }
      }
    } else {
      var rest := BreakTrace(s[1..]);
      BreaksPlaced(s[1..]);
      assert t == [Kept(s[0])] + rest;
      forall i: nat
        ensures BreakPlacedAt(t, i)
      {
        if 1 <= i < |t| && t[i] == Break {
          assert rest[i - 1] == Break;
          assert BreakPlacedAt(rest, i - 1);
          assert t[i + 1] == rest[i] && t[i - 1] == rest[i - 2];
        }
      }
    }
  }

  /** Every later bullet of the scan's trace follows a line break or a bullet. */
  lemma {:induction false} BulletsPlaced(s: string)
    ensures BulletsOnNewLines(BreakTrace(s))
    decreases |s|
  {
    var t := BreakTrace(s);
    if |s| < 2 {
      forall i: nat
        ensures BulletPlacedAt(t, i)
      {
      }
    } else if s[0] != '\n' && s[1] == Bullet {
      var rest := BreakTrace(s[2..]);
      BulletsPlaced(s[2..]);
      assert t == [Kept(s[0]), Break, Kept(Bullet)] + rest;
      forall i: nat
        ensures BulletPlacedAt(t, i)
      {
        if 4 <= i < |t| {
          assert BulletPlacedAt(rest, i - 3);
          assert t[i] == rest[i - 3] && t[i - 1] == rest[i - 4];
        }
      }
    } else {
      var rest := BreakTrace(s[1..]);
      BulletsPlaced(s[1..]);
      assert t == [Kept(s[0])] + rest;
      forall i: nat
        ensures BulletPlacedAt(t, i)
      {
        if 2 <= i < |t| {
          assert BulletPlacedAt(rest, i - 1);
          assert t[i] == rest[i - 1] && t[i - 1] == rest[i - 2];
        }
      }
    }
  }

  /** Two adjacent bullets of the scan's trace come right after an inserted
      line break. */
  lemma {:induction false} AdjacentBulletsPlaced(s: string)
    ensures AdjacentBulletsFollowBreak(BreakTrace(s))
    decreases |s|
  {
    var t := BreakTrace(s);
    if |s| < 2 {
      forall i: nat
        ensures AdjacentPlacedAt(t, i)
      {
      }
    } else if s[0] != '\n' && s[1] == Bullet {
      var rest := BreakTrace(s[2..]);
      AdjacentBulletsPlaced(s[2..]);
      assert t == [Kept(s[0]), Break, Kept(Bullet)] + rest;
      forall i: nat
        ensures AdjacentPlacedAt(t, i)
      {
        if 4 <= i < |t| {
          assert AdjacentPlacedAt(rest, i - 3);
          assert t[i] == rest[i - 3] && t[i - 1] == rest[i - 4];
          if i >= 5 {
            assert t[i - 2] == rest[i - 5];
          }
        }
      }
    } else {
      var rest := BreakTrace(s[1..]);
      AdjacentBulletsPlaced(s[1..]);
      assert t == [Kept(s[0])] + rest;
      forall i: nat
        ensures AdjacentPlacedAt(t, i)
      {
        if 2 <= i < |t| {
          assert AdjacentPlacedAt(rest, i - 1);
          assert t[i] == rest[i - 1] && t[i - 1] == rest[i - 2];
          if i >= 3 {
            assert t[i - 2] == rest[i - 3];
          }
        }
      }
    }
  }

  /** The scan never puts a line break on both sides of one bullet. */
  lemma {:induction false} SeparatedOnce(s: string)
    ensures NotBothSeparated(BreakTrace(s))
    decreases |s|
  {
    var t := BreakTrace(s);
    if |s| < 2 {
      forall i: nat
        ensures SeparatedOnceAt(t, i)
      {
      }
    } else if s[0] != '\n' && s[1] == Bullet {
      var rest := BreakTrace(s[2..]);
      SeparatedOnce(s[2..]);
      assert t == [Kept(s[0]), Break, Kept(Bullet)] + rest;
      forall i: nat
        ensures SeparatedOnceAt(t, i)
      {
        if 3 <= i < |t| {
          assert t[i] == rest[i - 3];
          if i >= 5 {
            assert SeparatedOnceAt(rest, i - 3);
            assert t[i - 1] == rest[i - 4] && t[i - 2] == rest[i - 5];
          }
        }
      }
    } else {
      var rest := BreakTrace(s[1..]);
      SeparatedOnce(s[1..]);
      assert t == [Kept(s[0])] + rest;
      forall i: nat
        ensures SeparatedOnceAt(t, i)
      {
        if 1 <= i < |t| {
          assert t[i] == rest[i - 1];
          if i >= 3 {
            assert SeparatedOnceAt(rest, i - 1);
            assert t[i - 1] == rest[i - 2] && t[i - 2] == rest[i - 3];
          }
        }
      }
    }
  }

  /** A suffix of a scan-shaped trace that starts after a kept piece, at a
      piece that is not an inserted line break, is scan-shaped too. */
  lemma ShapedSuffix(t: seq<Piece>, k: nat)
    requires ScanShaped(t)
    requires 1 <= k <= |t| && t[k - 1] != Break
    requires k < |t| ==> t[k] != Break
    ensures ScanShaped(t[k..])
  {
    var u := t[k..];
    forall i: nat
      ensures BreakPlacedAt(u, i)
    {
      if i < |u| && u[i] == Break {
        assert BreakPlacedAt(t, k + i);
      }
    }
    forall i: nat
      ensures BulletPlacedAt(u, i)
    {
      if 0 < i < |u| {
        assert BulletPlacedAt(t, k + i);
      }
    }
    forall i: nat
      ensures AdjacentPlacedAt(u, i)
    {
      if 0 < i < |u| {
        assert AdjacentPlacedAt(t, k + i);
      }
    }
    forall i: nat
      ensures SeparatedOnceAt(u, i)
    {
      if 2 <= i < |u| {
        assert SeparatedOnceAt(t, k + i);
      }
    }
  }

  /** A scan-shaped trace with a line break second starts with a match: a
      character other than a line break, the break, and a bullet, which no
      second break follows. */
  lemma BreakSecond(t: seq<Piece>)
    requires ScanShaped(t) && |t| >= 2 && t[1] == Break
    ensures |t| >= 3 && t[0].Kept? && t[0].c != '\n' && t[2] == Kept(Bullet)
    ensures |t| > 3 ==> t[3] != Break
  {
    assert BreakPlacedAt(t, 1);
    assert SeparatedOnceAt(t, 3);
  }

  /** The input behind a trace that starts with a match. */
  lemma OriginalOfMatch(t: seq<Piece>)
    requires |t| >= 3 && t[0].Kept? && t[1] == Break && t[2] == Kept(Bullet)
    ensures Original(t) == [t[0].c, Bullet] + Original(t[3..])
  {
    var t1, t2, rest := t[1..], t[2..], t[3..];
    assert t1[0] == Break && t1[1..] == t2;
    assert t2[0] == Kept(Bullet) && t2[1..] == rest;
    assert Original(t1) == [Bullet] + Original(rest);
    ConcatAssoc([t[0].c], [Bullet], Original(rest));
    assert [t[0].c] + [Bullet] == [t[0].c, Bullet];
  }

  /** A scan-shaped trace whose second piece is kept does not start with a
      match. */
  lemma KeptSecond(t: seq<Piece>)
    requires ScanShaped(t) && |t| >= 2 && t[0].Kept? && t[1].Kept?
    ensures !(t[0].c != '\n' && t[1].c == Bullet)
  {
    assert BulletPlacedAt(t, 1) && AdjacentPlacedAt(t, 1);
  }

  /** A scan-shaped trace starts with a kept character, the input's first. */
  lemma FirstKept(t: seq<Piece>)
    requires BreaksBeforeBullets(t) && |t| > 0
    ensures t[0].Kept? && Original(t) == [t[0].c] + Original(t[1..])
  {
    assert BreakPlacedAt(t, 0);
  }

  /** The four placement properties determine the trace: any trace of `s`
      that has them is the one the scan produces. */
  lemma {:induction false} TraceDetermined(s: string, t: seq<Piece>)
    requires Original(t) == s && ScanShaped(t)
    ensures t == BreakTrace(s)
    decreases |s|
  {
    if |t| > 0 {
      FirstKept(t);
      if |t| >= 2 && t[1] == Break {
        BreakSecond(t);
        OriginalOfMatch(t);
        ShapedSuffix(t, 3);
        assert s[2..] == Original(t[3..]);
        TraceDetermined(s[2..], t[3..]);
        assert t == [Kept(s[0]), Break, Kept(Bullet)] + t[3..];
      } else {
        if |t| >= 2 {
          assert t[1..][0] == t[1];
          KeptSecond(t);
        }
        ShapedSuffix(t, 1);
        assert s[1..] == Original(t[1..]);
        TraceDetermined(s[1..], t[1..]);
        assert t == [Kept(s[0])] + t[1..];
      }
    }
  }

  /** On text: any trace of `s` with the four placement properties renders
      to the rewrite of `s`. */
  lemma RewriteDetermined(s: string, t: seq<Piece>)
    requires Original(t) == s && ScanShaped(t)
    ensures BreakBeforeBullets(s) == Render(t)
  {
    TraceDetermined(s, t);
    BreakIsTrace(s);
  }

  /** Step 3 on text, as the same left-to-right scan: every bullet after
      the first position ends up right after a line break or another bullet,
      and the first character stays first. */
  function BreakBeforeBullets(s: string): (r: string)
    ensures |s| > 0 ==> |r| > 0 && r[0] == s[0]
    ensures forall i :: 0 < i < |r| && r[i] == Bullet ==> r[i - 1] == '\n' || r[i - 1] == Bullet
    decreases |s|
  {
    if |s| < 2 then s
    else if s[0] != '\n' && s[1] == Bullet then
      var rest := BreakBeforeBullets(s[2..]);
      var r := [s[0], '\n', Bullet] + rest;
      assert forall i :: 3 <= i < |r| ==> r[i] == rest[i - 3];
      r
    else
      var rest := BreakBeforeBullets(s[1..]);
      var r := [s[0]] + rest;
      assert forall i :: 1 <= i < |r| ==> r[i] == rest[i - 1];
      r
  }

  /** Rendering works piece by piece. */
  lemma RenderAppend(a: seq<Piece>, b: seq<Piece>)
    ensures Render(a + b) == Render(a) + Render(b)
  {
  }

  /** The text scan is the trace rendered: the line breaks it inserts are
      exactly the trace's, so dropping them gives the input back. */
  lemma {:induction false} BreakIsTrace(s: string)
    ensures BreakBeforeBullets(s) == Render(BreakTrace(s))
    decreases |s|
  {
    if |s| < 2 {
      assert |BreakTrace(s)| == |s|;
      if |s| == 1 {
        assert BreakTrace(s) == [Kept(s[0])];
      }
    } else if s[0] != '\n' && s[1] == Bullet {
      var head := [Kept(s[0]), Break, Kept(Bullet)];
      BreakIsTrace(s[2..]);
      assert Render(head) == [s[0], '\n', Bullet];
      RenderAppend(head, BreakTrace(s[2..]));
    } else {
      BreakIsTrace(s[1..]);
      assert Render([Kept(s[0])]) == [s[0]];
      RenderAppend([Kept(s[0])], BreakTrace(s[1..]));
    }
  }

  /** Step 3 creates no two-character literal that avoids the line break. */
  lemma {:induction false} BreakKeepsFree(s: string, q: string)
    requires |q| == 2 && q[0] != '\n' && q[1] != '\n'
    requires !Occurs(s, q)
    ensures !Occurs(BreakBeforeBullets(s), q)
    decreases |s|
  {
    if |s| >= 2 {
      MatchesPair(s, q, 0);
      if s[0] != '\n' && s[1] == Bullet {
        SliceFree(s, 2, |s|, q);
        assert s[2..|s|] == s[2..];
        BreakKeepsFree(s[2..], q);
        MatchesPair(s, q, 1);
        InsertedBreakFree(s[0], BreakBeforeBullets(s[2..]), q);
      } else {
        SliceFree(s, 1, |s|, q);
        assert s[1..|s|] == s[1..];
        BreakKeepsFree(s[1..], q);
        ConsFree(s[0], BreakBeforeBullets(s[1..]), q);
      }
    }
  }

  /** The three characters a match produces do not form `q` with what follows. */
  lemma InsertedBreakFree(x: char, t: string, q: string)
    requires |q| == 2 && q[0] != '\n' && q[1] != '\n'
    requires !Occurs(t, q)
    requires |t| == 0 || Bullet != q[0] || t[0] != q[1]
    ensures !Occurs([x, '\n', Bullet] + t, q)
  {
    ConsFree(Bullet, t, q);
    ConsFree('\n', [Bullet] + t, q);
    ConsFree(x, ['\n'] + ([Bullet] + t), q);
    assert [x, '\n', Bullet] + t == [x] + (['\n'] + ([Bullet] + t));
  }

  /** Step 3 works piece by piece when the second piece does not start with
      a bullet, since then no match straddles the seam. */
  lemma {:induction false} BreakAppend(a: string, b: string)
    requires |b| == 0 || b[0] != Bullet
    ensures BreakBeforeBullets(a + b) == BreakBeforeBullets(a) + BreakBeforeBullets(b)
    decreases |a|
  {
    var s := a + b;
    if |a| == 0 {
      assert s == b;
    } else if |b| == 0 {
      assert s == a;
    } else if |a| == 1 {
      assert s[0] == a[0] && s[1] == b[0];
      assert s[1..] == b;
    } else if a[0] != '\n' && a[1] == Bullet {
      assert s[0] == a[0] && s[1] == a[1];
      assert s[2..] == a[2..] + b;
      BreakAppend(a[2..], b);
    } else {
      assert s[0] == a[0] && s[1] == a[1];
      assert s[1..] == a[1..] + b;
      BreakAppend(a[1..], b);
    }
  }

  /** Text without bullets passes step 3 unchanged. */
  lemma {:induction false} BreakAbsent(s: string)
    requires Bullet !in s
    ensures BreakBeforeBullets(s) == s
    decreases |s|
  {
    if |s| >= 2 {
      assert forall c :: c in s[1..] ==> c in s;
      BreakAbsent(s[1..]);
    }
  }

  /* ----- The whole chain ----- */

  /** The cleaned text: no bold marker and no alternate bullet survives, and
      every bullet after the first position follows a line break or a bullet. */
  function Clean(raw: string): (r: string)
    ensures !Occurs(r, "**") && !Occurs(r, "* ") && !Occurs(r, "- ")
    ensures forall i :: 0 < i < |r| && r[i] == Bullet ==> r[i - 1] == '\n' || r[i - 1] == Bullet
  {
    var u := UnifyBullets(StripBold(raw));
    BreakKeepsFree(u, "**");
    BreakKeepsFree(u, "* ");
    BreakKeepsFree(u, "- ");
    BreakBeforeBullets(u)
  }

  /** On text without stars or hyphens, steps 1 and 2 do nothing and
      cleaning is step 3 alone. */
  lemma CleanWithoutMarkers(s: string)
    requires '*' !in s && '-' !in s
    ensures Clean(s) == BreakBeforeBullets(s)
  {
    AbsentHeadAbsent(s, "**");
    AbsentHeadAbsent(s, "* ");
    AbsentHeadAbsent(s, "- ");
    ReplaceAbsent(s, "**", "");
    ReplaceAbsent(s, "* ", [Bullet]);
    ReplaceAbsent(s, "- ", [Bullet]);
  }

  /** Text with no star, no hyphen and no bullet is already clean. */
  lemma CleanPlain(s: string)
    requires '*' !in s && '-' !in s && Bullet !in s
    ensures Clean(s) == s
  {
    CleanWithoutMarkers(s);
    BreakAbsent(s);
  }

  /** Step 3 on two adjacent bullets after a letter: only the first one
      gets a line break. */
  lemma BreakAdjacentBullets()
    ensures BreakBeforeBullets("a・・") == "a\n・・"
  {
    var s := "a・・";
    assert s[2..] == "・";
  }

  /** Step 3 on its own output: the second bullet now gets its break. */
  lemma BreakAdjacentBulletsAgain()
    ensures BreakBeforeBullets("a\n・・") == "a\n・\n・"
  {
    var u := "a\n・・";
    assert u[1..] == "\n・・";
    assert u[1..][1..] == "・・";
    assert u[1..][1..][2..] == [];
  }

  /** Cleaning is not idempotent: of two adjacent bullets only the first
      gets a line break per pass, so a second pass adds another one. */
  lemma CleanNotIdempotent()
    ensures Clean("a・・") == "a\n・・"
    ensures Clean(Clean("a・・")) == "a\n・\n・"
  {
    CleanWithoutMarkers("a・・");
    BreakAdjacentBullets();
    CleanWithoutMarkers("a\n・・");
    BreakAdjacentBulletsAgain();
  }
}
