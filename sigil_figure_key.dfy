/**
 * The key `canonicalize` is evidently meant to compute: one drawing per figure. Among all
 * valid drawings of the same lines with the same number of points, the key is the one that
 * reads smallest as an unsigned base-256 numeral, the order `canonicalize` itself uses to
 * choose a starting point, a direction and the orientation of each inner loop.
 *
 * Unlike `Canon`, this key depends on the figure alone: two valid Sigils get the same key
 * exactly when they draw the same lines, so a closed loop started at another point, or any
 * path walked backwards, gets the key of the original.
 */
module SigilFigureKey {
  import opened JavaLang
  import opened SigilGeometry
  import opened SigilCanonical
  import opened Reversal

  /** `t` is a valid drawing of the figure `s` draws, with as many points. */
  predicate DrawsFigure(t: seq<bv8>, s: seq<bv8>)
  {
    ValidSigil(t) && |t| == |s| && Lines(t) == Lines(s)
  }

  /** `m` draws the figure of `s`, and no drawing of that figure ranks lower. */
  ghost predicate LeastDrawing(m: seq<bv8>, s: seq<bv8>)
  {
    DrawsFigure(m, s) && forall u :: DrawsFigure(u, s) ==> Rank(m) <= Rank(u)
  }

  /** Every figure that has a drawing has a least one: ranks are natural numbers. */
  lemma {:induction false} LeastBelow(s: seq<bv8>, t: seq<bv8>)
    requires DrawsFigure(t, s)
    ensures exists m :: LeastDrawing(m, s)
    decreases Rank(t)
  {
    if exists u :: DrawsFigure(u, s) && Rank(u) < Rank(t) {
      var u :| DrawsFigure(u, s) && Rank(u) < Rank(t);
      LeastBelow(s, u);
    } else {
      assert LeastDrawing(t, s);
    }
  }

  /** The least drawing is unique: equal ranks of equal length mean equal paths. */
  lemma LeastUnique(s: seq<bv8>, m1: seq<bv8>, m2: seq<bv8>)
    requires LeastDrawing(m1, s) && LeastDrawing(m2, s)
    ensures m1 == m2
  {
    RankInjective(m1, m2);
  }

  /** Paths that draw the same figure have the same number of points. */
  lemma SameLinesSameLength(s: seq<bv8>, t: seq<bv8>)
    requires |s| >= 2 && |t| >= 2 && Lines(s) == Lines(t)
    ensures |s| == |t|
  {
    assert |Lines(s)| == |LineSeq(s)| == |s| - 1;
    assert |Lines(t)| == |LineSeq(t)| == |t| - 1;
  }

  /** The drawings of `s` are the drawings of `t` when the two draw the same figure. */
  lemma SameFigureSameDrawings(s: seq<bv8>, t: seq<bv8>, u: seq<bv8>)
    requires |s| == |t| && Lines(s) == Lines(t)
    ensures DrawsFigure(u, s) <==> DrawsFigure(u, t)
  {
  }

  /** The key of every valid Sigil, none for anything else. */
  ghost function FigureKey(s: seq<bv8>): (k: Option<seq<bv8>>)
    ensures k.Some? <==> ValidSigil(s)
    ensures k.Some? ==> LeastDrawing(k.value, s)
  {
    if ValidSigil(s) then
      LeastBelow(s, s);
      Some(var m :| LeastDrawing(m, s); m)
    else None
  }

  /** The key is itself a valid Sigil, drawing the same lines with the same number of points. */
  lemma FigureKeyDraws(s: seq<bv8>)
    requires ValidSigil(s)
    ensures FigureKey(s).Some?
    ensures ValidSigil(FigureKey(s).value)
    ensures |FigureKey(s).value| == |s| && Lines(FigureKey(s).value) == Lines(s)
  {
  }

  /** No drawing of the figure ranks below the key, and only the key itself ranks the same. */
  lemma FigureKeyLeast(s: seq<bv8>, t: seq<bv8>)
    requires ValidSigil(s) && ValidSigil(t) && |t| == |s| && Lines(t) == Lines(s)
    ensures Rank(FigureKey(s).value) <= Rank(t)
    ensures Rank(FigureKey(s).value) == Rank(t) <==> t == FigureKey(s).value
  {
    var k := FigureKey(s).value;
    assert DrawsFigure(t, s);
    if Rank(k) == Rank(t) {
      RankInjective(k, t);
    }
  }

  /** Two valid Sigils share a key exactly when they draw the same lines. */
  lemma FigureKeySameFigure(s: seq<bv8>, t: seq<bv8>)
    requires ValidSigil(s) && ValidSigil(t)
    ensures FigureKey(s) == FigureKey(t) <==> Lines(s) == Lines(t)
  {
    var ks, kt := FigureKey(s).value, FigureKey(t).value;
    if Lines(s) == Lines(t) {
      SameLinesSameLength(s, t);
      forall u ensures DrawsFigure(u, s) <==> DrawsFigure(u, t) {
        SameFigureSameDrawings(s, t, u);
      }
      assert LeastDrawing(kt, s);
      LeastUnique(s, ks, kt);
    }
  }

  /** A closed loop started at any of its points has the key of the original. */
  lemma FigureKeyRotation(s: seq<bv8>, k: nat)
    requires ValidSigil(s) && Closed(s) && k < |s| - 1
    ensures ValidSigil(StartLoopAt(s, k))
    ensures FigureKey(StartLoopAt(s, k)) == FigureKey(s)
  {
    var r := StartLoopAt(s, k);
    LinesStartLoopAt(s, k);
    SameFigureSameValidity(s, r);
    FigureKeySameFigure(s, r);
  }

  /** A path walked backwards has the key of the original. */
  lemma FigureKeyReversal(s: seq<bv8>)
    requires ValidSigil(s)
    ensures ValidSigil(Reversed(s))
    ensures FigureKey(Reversed(s)) == FigureKey(s)
  {
    LineSeqReversed(s);
    SameFigureSameValidity(s, Reversed(s));
    FigureKeySameFigure(s, Reversed(s));
  }

  /** The key is its own key. */
  lemma FigureKeyIdempotent(s: seq<bv8>)
    requires ValidSigil(s)
    ensures FigureKey(FigureKey(s).value) == FigureKey(s)
  {
    FigureKeySameFigure(s, FigureKey(s).value);
  }

  /** `canonicalize`'s output draws the figure, so it has the same key and never ranks below it. */
  lemma FigureKeyOfCanon(s: seq<bv8>)
    requires ValidSigil(s)
    ensures Canon(s).Some? && FigureKey(Canon(s).value) == FigureKey(s)
    ensures Rank(FigureKey(s).value) <= Rank(Canon(s).value)
  {
    CanonShape(s);
    FigureKeySameFigure(s, Canon(s).value);
    FigureKeyLeast(s, Canon(s).value);
  }
}
