/** Worked examples: whole words through segmentation and syllabification. */
module Exemplos {
  import opened Grafemas
  import opened Regras
  import opened Silabacao
  import opened Silaba

  /** Position `i` does not hold an "n", "l", "c", "q" or "g" followed by "h" or
      "u", so no two-character grapheme starts there. */
  predicate SemDuploEm(p: string, i: nat)
    requires i < |p|
  {
    !(p[i] in {'n', 'l', 'c', 'q', 'g'} && i + 1 < |p| && p[i + 1] in {'h', 'u'})
  }

  /** Such a character is a grapheme of its own. */
  lemma Simples(p: string, i: nat)
    requires i < |p| && SemDuploEm(p, i)
    ensures Segmentar(p[i..]) == [p[i..i + 1]] + Segmentar(p[i + 1..])
  {
    SegmentarPasso(p, i);
    assert Primeiro(p[i..]) == p[i..i + 1] by {
      var gm0, gm1 := Car(p, i), Car(p, i + 1);
      assert gm0[0] == p[i] && (gm1 != "" ==> gm1[0] == p[i + 1]);
      NaoDuplo(gm0, gm1);
    }
  }

  lemma NaoDuplo(a: string, b: string)
    requires |a| == 1 && |b| <= 1
    requires !(a[0] in {'n', 'l', 'c', 'q', 'g'} && |b| == 1 && b[0] in {'h', 'u'})
    ensures a + b !in Digrafos && a + b !in Especiais
  {
    var ab := a + b;
    assert ab[0] == a[0] && (|b| == 1 ==> ab[1] == b[0]);
  }

  lemma SemDuploNoResto(p: string)
    requires p != [] && forall k :: 0 <= k < |p| ==> SemDuploEm(p, k)
    ensures forall k :: 0 <= k < |p| - 1 ==> SemDuploEm(p[1..], k)
  {
    forall k | 0 <= k < |p| - 1
      ensures SemDuploEm(p[1..], k)
    {
      assert SemDuploEm(p, k + 1);
    }
  }

  /** One grapheme per character. */
  function Caracteres(p: string): (r: seq<string>)
    ensures |r| == |p|
    ensures forall k :: 0 <= k < |p| ==> r[k] == [p[k]]
  {
    if p == [] then [] else [p[..1]] + Caracteres(p[1..])
  }

  /** A word in which no character can start a two-character grapheme is
      segmented one character per grapheme. */
  lemma {:induction false} SegmentarSimples(p: string)
    requires forall k :: 0 <= k < |p| ==> SemDuploEm(p, k)
    decreases |p|
    ensures Segmentar(p) == Caracteres(p)
  {
    if p != [] {
      Simples(p, 0);
      assert p[0..] == p && p[0..1] == p[..1];
      SemDuploNoResto(p);
      SegmentarSimples(p[1..]);
    }
  }

  /** "casa" has no digraph: one grapheme per letter. */
  lemma GrafemasDeCasa(p: string)
    requires p == "casa"
    ensures Segmentar(p) == ["c", "a", "s", "a"]
  {
    var r := Caracteres(p);
    assert r[0] == "c" && r[1] == "a" && r[2] == "s" && r[3] == "a";
    assert r == ["c", "a", "s", "a"];
    SegmentarSimples(p);
  }

  /** Rule 6 fires at the vowel of "ca": a consonant before it, and a consonant
      followed by a vowel after it. */
  lemma Regra6EmCasa(decide: Janela -> Acao, w: Janela)
    requires forall w {:trigger AcaoEm(w)} :: decide(w) == AcaoEm(w)
    requires w == Janela("", "c", "a", "s", "a", "", "", 1)
    ensures Seleciona(w) == Some(R6)
    ensures decide(w) == Fecha(1)
  {
    assert Dispara(R6, w);
    SelecionaPrimeira(w);
    var x := Seleciona(w).value;
    assert Posicao(x) <= 5;
    assert decide(w) == AcaoEm(w);
  }

  /** At a vowel that ends the word the rest is taken into the syllable. */
  lemma FimDaPalavra(decide: Janela -> Acao, w: Janela)
    requires forall w {:trigger AcaoEm(w)} :: decide(w) == AcaoEm(w)
    requires w.gm1 == "" && w.gm2 == ""
    ensures decide(w) == ConsomeResto
  {
    NadaDepois(w);
    assert decide(w) == AcaoEm(w);
  }

  /** "casa" is "ca-sa": rule 6 closes the first syllable at its vowel, and the
      default case takes the rest of the word. */
  lemma SilabasDeCasa(p: string)
    requires p == "casa"
    ensures Silabar(Segmentar(p)) == ["ca", "sa"]
  {
    GrafemasDeCasa(p);
    var g := Segmentar(p);
    var decide := Decisor(g);
    JanelaExplicita(g, 1, 1);
    JanelaExplicita(g, 3, 1);
    Regra6EmCasa(decide, JanelaEm(g, 1, 1));
    FimDaPalavra(decide, JanelaEm(g, 3, 1));
    VarreCasa(decide, g);
  }

  /** The scan of "casa" for any decision that closes the syllable at the
      first vowel after one grapheme and takes the rest at the second. */
  lemma VarreCasa(decide: Janela -> Acao, g: seq<string>)
    requires Admissivel(decide)
    requires g == ["c", "a", "s", "a"]
    requires decide(JanelaEm(g, 1, 1)) == Fecha(1) && decide(JanelaEm(g, 3, 1)) == ConsomeResto
    ensures Varre(decide, g, 0, []) == ["ca", "sa"]
  {
    assert Varre(decide, g, 2, []) == ["sa"] by {
      VarreConsoante(decide, g, 2, []);
      assert [] + [g[2]] == ["s"];
      VarreResto(decide, g, 3, ["s"]);
      assert g[3..] == ["a"];
      ConcatCurta(["s"]);
      ConcatCurta(["a"]);
      assert "s" + "a" == "sa";
    }
    assert Varre(decide, g, 1, ["c"]) == ["ca"] + Varre(decide, g, 2, []) by {
      VarreFecha(decide, g, 1, ["c"], 1);
      ConcatCurta(["c"]);
      assert "c" + "a" == "ca";
    }
    assert Varre(decide, g, 0, []) == Varre(decide, g, 1, ["c"]) by {
      VarreConsoante(decide, g, 0, []);
      assert [] + [g[0]] == ["c"];
    }
  }

  /** "pedra" has no digraph either. */
  lemma GrafemasDePedra(p: string)
    requires p == "pedra"
    ensures Segmentar(p) == ["p", "e", "d", "r", "a"]
  {
    var r := Caracteres(p);
    assert r[0] == "p" && r[1] == "e" && r[2] == "d" && r[3] == "r" && r[4] == "a";
    assert r == ["p", "e", "d", "r", "a"];
    SegmentarSimples(p);
  }

  /** Rule 20 fires at the vowel of "pe": an occlusive and a liquid follow it,
      then a vowel, so the syllable closes before the cluster "dr". */
  lemma Regra20EmPedra(decide: Janela -> Acao, w: Janela)
    requires forall w {:trigger AcaoEm(w)} :: decide(w) == AcaoEm(w)
    requires w == Janela("", "p", "e", "d", "r", "a", "", 1)
    ensures Seleciona(w) == Some(R20)
    ensures decide(w) == Fecha(1)
  {
    assert Dispara(R20, w);
    SelecionaPrimeira(w);
    var x := Seleciona(w).value;
    assert Posicao(x) <= 16;
    assert decide(w) == AcaoEm(w);
  }

  /** The scan of "pedra" for any decision that closes the syllable at the
      first vowel after one grapheme and takes the rest at the second. */
  lemma VarrePedra(decide: Janela -> Acao, g: seq<string>)
    requires Admissivel(decide)
    requires g == ["p", "e", "d", "r", "a"]
    requires decide(JanelaEm(g, 1, 1)) == Fecha(1) && decide(JanelaEm(g, 4, 2)) == ConsomeResto
    ensures Varre(decide, g, 0, []) == ["pe", "dra"]
  {
    VarreDra(decide, g);
    assert Varre(decide, g, 1, ["p"]) == ["pe"] + Varre(decide, g, 2, []) by {
      VarreFecha(decide, g, 1, ["p"], 1);
      ConcatCurta(["p"]);
      assert "p" + "e" == "pe";
    }
    assert Varre(decide, g, 0, []) == Varre(decide, g, 1, ["p"]) by {
      VarreConsoante(decide, g, 0, []);
      assert [] + [g[0]] == ["p"];
    }
  }

  /** The second syllable of "pedra": the consonants "d" and "r" wait for the
      final vowel, which takes the rest. */
  lemma VarreDra(decide: Janela -> Acao, g: seq<string>)
    requires Admissivel(decide)
    requires g == ["p", "e", "d", "r", "a"]
    requires decide(JanelaEm(g, 4, 2)) == ConsomeResto
    ensures Varre(decide, g, 2, []) == ["dra"]
  {
    assert Varre(decide, g, 4, ["d", "r"]) == ["dra"] by {
      VarreResto(decide, g, 4, ["d", "r"]);
      assert g[4..] == ["a"];
      ConcatCurta(["d", "r"]);
      ConcatCurta(["a"]);
      assert "d" + "r" + "a" == "dra";
    }
    assert Varre(decide, g, 3, ["d"]) == Varre(decide, g, 4, ["d", "r"]) by {
      VarreConsoante(decide, g, 3, ["d"]);
      assert ["d"] + [g[3]] == ["d", "r"];
    }
    assert Varre(decide, g, 2, []) == Varre(decide, g, 3, ["d"]) by {
      VarreConsoante(decide, g, 2, []);
      assert [] + [g[2]] == ["d"];
    }
  }

  /** "pedra" is "pe-dra": rule 20 closes the first syllable before the
      occlusive-liquid cluster, and the default case takes the rest; its last
      syllable is "dra". */
  lemma SilabasDePedra(p: string)
    requires p == "pedra"
    ensures Silabar(Segmentar(p)) == ["pe", "dra"]
    ensures SilabaDoFim(Silabar(Segmentar(p)), 1) == "dra"
  {
    GrafemasDePedra(p);
    var g := Segmentar(p);
    var decide := Decisor(g);
    JanelaExplicita(g, 1, 1);
    JanelaExplicita(g, 4, 2);
    Regra20EmPedra(decide, JanelaEm(g, 1, 1));
    FimDaPalavra(decide, JanelaEm(g, 4, 2));
    VarrePedra(decide, g);
  }
}
