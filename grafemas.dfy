/** Grapheme segmentation: the normalised word is cut, left to right and
    greedily, into graphemes of one character, except that "nh", "lh" and "ch",
    and "qu"/"gu" when the next character is "e" or "i", stay together. */
module Grafemas {

  const Digrafos: seq<string> := ["nh", "lh", "ch"]
  const Especiais: seq<string> := ["qu", "gu"]

  /** The concatenation of a sequence of graphemes or syllables. */
  function Concat(gs: seq<string>): (s: string)
  {
    if gs == [] then "" else gs[0] + Concat(gs[1..])
  }

  lemma {:induction false} ConcatJunta(a: seq<string>, b: seq<string>)
    ensures Concat(a + b) == Concat(a) + Concat(b)
  {
    if a == [] {
      assert a + b == b;
    } else {
      assert (a + b)[1..] == a[1..] + b;
      ConcatJunta(a[1..], b);
    }
  }

  /** Concatenating one more element of `gs` extends the prefix concatenation. */
  lemma ConcatPrefixo(gs: seq<string>, i: nat)
    requires i < |gs|
    ensures Concat(gs[..i + 1]) == Concat(gs[..i]) + gs[i]
  {
    assert gs[..i + 1] == gs[..i] + [gs[i]];
    ConcatJunta(gs[..i], [gs[i]]);
  }

  /** The concatenation of one, two or three graphemes. */
  lemma ConcatCurta(gs: seq<string>)
    requires 1 <= |gs| <= 3
    ensures |gs| == 1 ==> Concat(gs) == gs[0]
    ensures |gs| == 2 ==> Concat(gs) == gs[0] + gs[1]
    ensures |gs| == 3 ==> Concat(gs) == gs[0] + gs[1] + gs[2]
  {
    assert Concat(gs[|gs|..]) == "";
    if |gs| >= 2 {
      assert Concat(gs[|gs| - 1..]) == gs[|gs| - 1];
    }
    if |gs| == 3 {
      assert Concat(gs[1..]) == gs[1] + gs[2];
    }
  }

  /** Cutting a suffix in two at `j`. */
  lemma ConcatCorta(g: seq<string>, i: nat, j: nat)
    requires i <= j <= |g|
    ensures Concat(g[i..]) == Concat(g[i..j]) + Concat(g[j..])
  {
    assert g[i..] == g[i..j] + g[j..];
    ConcatJunta(g[i..j], g[j..]);
  }

  lemma AssociaSeq(a: seq<string>, b: seq<string>, c: seq<string>)
    ensures (a + b) + c == a + (b + c)
  {
  }

  /** Extending a slice of `g` by one element on the right. */
  lemma ConcatEstende(g: seq<string>, i: nat, j: nat)
    requires i <= j < |g|
    ensures Concat(g[i..j + 1]) == Concat(g[i..j]) + g[j]
  {
    assert g[i..j + 1] == g[i..j] + [g[j]];
    ConcatJunta(g[i..j], [g[j]]);
    ConcatCurta([g[j]]);
  }

  lemma FatiaAteOFim(g: seq<string>, i: nat, j: nat)
    requires i <= j == |g|
    ensures g[i..j] == g[i..]
  {
  }

  lemma ConcatCons(x: string, rest: seq<string>)
    ensures Concat([x] + rest) == x + Concat(rest)
  {
    assert ([x] + rest)[1..] == rest;
  }

  /** A sequence's concatenation is the part before element `k`, element `k`
      and the part after it. */
  lemma {:induction false} ConcatEmTorno(gs: seq<string>, k: nat)
    requires k < |gs|
    ensures Concat(gs)
            == Concat(gs[..k]) + gs[k] + Concat(gs[k + 1..])
  {
    if k == 0 {
      assert gs[..0] == [] && gs[1..] == gs[k + 1..];
    } else {
      var r := gs[1..];
      ConcatEmTorno(r, k - 1);
      assert r[..k - 1] == gs[1..k] && r[k - 1] == gs[k] && r[k..] == gs[k + 1..];
      assert gs[..k][1..] == gs[1..k];
      assert Concat(gs[..k]) == gs[0] + Concat(gs[1..k]);
    }
  }

  /** Non-empty pieces concatenate to "" only when there are none. */
  lemma ConcatVazia(gs: seq<string>)
    requires Concat(gs) == "" && forall k :: 0 <= k < |gs| ==> gs[k] != ""
    ensures gs == []
  {
  }

  /** The character at position `k` of `p` as a string, or "" past the end. */
  function Car(p: string, k: nat): (c: string)
    ensures |c| <= 1 && (c != "" <==> k < |p|)
  {
    if k < |p| then p[k..k + 1] else ""
  }

  /** The grapheme starting at the first character of a non-empty `p`. */
  function Primeiro(p: string): (g: string)
    requires p != []
    ensures 1 <= |g| <= 2 && |g| <= |p| && g == p[..|g|]
  {
    var gm0, gm1, gm2 := Car(p, 0), Car(p, 1), Car(p, 2);
    if gm0 + gm1 in Digrafos then gm0 + gm1
    else if gm0 + gm1 in Especiais && gm2 in ["e", "i"] then gm0 + gm1
    else gm0
  }

  /** The grapheme sequence of `p`: the reference for the segmenting loop. */
  function Segmentar(p: string): (r: seq<string>)
    decreases |p|
    ensures Concat(r) == p
    ensures |r| <= |p|
    ensures forall k :: 0 <= k < |r| ==> 1 <= |r[k]| <= 2
  {
    if p == [] then []
    else
      var g := Primeiro(p);
      assert p == g + p[|g|..];
      [g] + Segmentar(p[|g|..])
  }

  /** One step of the segmenting scan at position `i` of `p`: the grapheme there
      is decided by the characters at `i`, `i + 1` and `i + 2`. */
  lemma SegmentarPasso(p: string, i: nat)
    requires i < |p|
    ensures var gm0, gm1, gm2 := Car(p, i), Car(p, i + 1), Car(p, i + 2);
            Primeiro(p[i..]) == if gm0 + gm1 in Digrafos then gm0 + gm1
                                else if gm0 + gm1 in Especiais && gm2 in ["e", "i"] then gm0 + gm1
                                else gm0
    ensures i + |Primeiro(p[i..])| <= |p|
    ensures Segmentar(p[i..]) == [Primeiro(p[i..])] + Segmentar(p[i + |Primeiro(p[i..])|..])
  {
    var q := p[i..];
    CarDesloca(p, i, 0);
    CarDesloca(p, i, 1);
    CarDesloca(p, i, 2);
    var g := Primeiro(q);
    assert q[|g|..] == p[i + |g|..];
  }

  /** A digraph or "qu"/"gu" made of two `Car` values is two characters long. */
  lemma DuploTamanho(gm0: string, gm1: string)
    requires |gm0| <= 1 && |gm1| <= 1
    requires gm0 + gm1 in Digrafos || gm0 + gm1 in Especiais
    ensures |gm0| == 1 && |gm1| == 1
  {
  }

  lemma CarDesloca(p: string, i: nat, k: nat)
    requires i <= |p|
    ensures Car(p[i..], k) == Car(p, i + k)
  {
    if i + k < |p| {
      assert p[i..][k..k + 1] == p[i + k..i + k + 1];
    }
  }

  /** The first grapheme of a non-empty word starts with the word's first character. */
  lemma SegmentarInicio(p: string)
    requires p != []
    ensures Segmentar(p) != [] && Segmentar(p)[0] == Primeiro(p)
            && Segmentar(p)[0][..1] == p[..1]
  {
  }

  /** The grapheme at `k` is a single character, or "nh", "lh", "ch", or
      "qu"/"gu" with "e" or "i" as the next grapheme. */
  predicate DuploPermitido(r: seq<string>, k: nat)
    requires k < |r|
  {
    |r[k]| == 2 ==>
      r[k] in Digrafos || (r[k] in Especiais && k + 1 < |r| && r[k + 1] in ["e", "i"])
  }

  /** The scan did not leave split, at a one-character grapheme `k`, a digraph
      or a "qu"/"gu" followed by "e"/"i". */
  predicate Maximal(r: seq<string>, k: nat)
    requires k < |r| && forall j :: 0 <= j < |r| ==> r[j] != ""
  {
    |r[k]| == 1 && k + 1 < |r| ==>
      r[k] + r[k + 1][..1] !in Digrafos
      && !(k + 2 < |r| && r[k] + r[k + 1] in Especiais && r[k + 2][..1] in ["e", "i"])
  }

  /** A two-character grapheme is "nh", "lh" or "ch", or it is "qu"/"gu" and the
      grapheme after it is "e" or "i". */
  lemma {:induction false} GrafemasDuplos(p: string)
    ensures forall k :: 0 <= k < |Segmentar(p)| ==> DuploPermitido(Segmentar(p), k)
  {
    if p != [] {
      var g := Primeiro(p);
      var q := p[|g|..];
      var r := Segmentar(p);
      assert r == [g] + Segmentar(q);
      GrafemasDuplos(q);
      if |g| == 2 && g !in Digrafos {
        assert g in Especiais && Car(p, 2) in ["e", "i"];
        assert q != [] && q[..1] == Car(p, 2);
        PrimeiroVogal(q);
        SegmentarInicio(q);
      }
      assert DuploPermitido(r, 0);
      forall k | 0 < k < |r|
        ensures DuploPermitido(r, k)
      {
        DuploNoResto(g, Segmentar(q), k);
      }
    }
  }

  /** A word starting with "e" or "i" starts with a one-character grapheme. */
  lemma PrimeiroVogal(q: string)
    requires q != [] && q[..1] in ["e", "i"]
    ensures Primeiro(q) == q[..1]
  {
    var gm01 := Car(q, 0) + Car(q, 1);
    assert gm01[0] == q[0];
    assert gm01 !in Digrafos && gm01 !in Especiais;
  }

  /** The scan is greedy: a one-character grapheme is never the first half of a
      digraph whose second half starts the next grapheme, nor the start of a
      "qu"/"gu" followed by "e"/"i" that the scan left split. */
  lemma {:induction false} GrafemasMaximais(p: string)
    ensures forall k :: 0 <= k < |Segmentar(p)| ==> Maximal(Segmentar(p), k)
  {
    if p != [] {
      var q := p[|Primeiro(p)|..];
      var r := Segmentar(p);
      assert r == [Primeiro(p)] + Segmentar(q);
      GrafemasMaximais(q);
      MaximalInicio(p);
      forall k | 0 < k < |r|
        ensures Maximal(r, k)
      {
        MaximalNoResto(Primeiro(p), Segmentar(q), k);
      }
    }
  }

  lemma MaximalNoResto(x: string, r: seq<string>, k: nat)
    requires x != "" && (forall j :: 0 <= j < |r| ==> r[j] != "")
    requires 0 < k <= |r| && Maximal(r, k - 1)
    ensures Maximal([x] + r, k)
  {
    var xr := [x] + r;
    assert xr[k] == r[k - 1];
    if k + 1 < |xr| {
      assert xr[k + 1] == r[k];
    }
    if k + 2 < |xr| {
      assert xr[k + 2] == r[k + 1];
    }
  }

  lemma DuploNoResto(x: string, r: seq<string>, k: nat)
    requires 0 < k <= |r| && DuploPermitido(r, k - 1)
    ensures DuploPermitido([x] + r, k)
  {
    var xr := [x] + r;
    assert xr[k] == r[k - 1];
    if k + 1 < |xr| {
      assert xr[k + 1] == r[k];
    }
  }

  lemma MaximalInicio(p: string)
    requires p != []
    ensures Maximal(Segmentar(p), 0)
  {
    var g := Primeiro(p);
    var q := p[|g|..];
    var r := Segmentar(p);
    assert r == [g] + Segmentar(q);
    if |g| == 1 && q != [] {
      SegmentarInicio(q);
      var gm0, gm1 := Car(p, 0), Car(p, 1);
      assert r[0] == gm0 && r[1][..1] == gm1;
      assert gm0 + gm1 !in Digrafos;
      if |r[1]| == 1 && |q| > 1 {
        var q2 := q[1..];
        assert Segmentar(q)[1..] == Segmentar(q2);
        SegmentarInicio(q2);
        assert r[2][..1] == Car(p, 2);
        assert r[1] == gm1;
      }
    }
  }
}
