/** The syllabifier as a function of the grapheme sequence: the reference for
    the cursor loop of `Palavra.Silabear`.

    `Varre(decide, g, i, buffer)` is what the loop still appends when its cursor
    is at `i` and the syllable under construction holds the graphemes `buffer`
    (all of them non-vowels). `decide` is what happens at a vowel, as a function
    of the window; the syllabifier uses the rule battery's `AcaoEm`. The scan is
    stated for any decision that closes a syllable only over graphemes the
    window shows (`Admissivel`), so its lemmas hold independently of the rules. */
module Silabacao {
  import opened Classificadores
  import opened Grafemas
  import opened Regras

  /** A decision closes a syllable after 1, 2 or 3 graphemes, and only over
      graphemes present in the window. */
  ghost predicate Admissivel(decide: Janela -> Acao)
  {
    forall w: Janela :: decide(w).Fecha? ==>
      1 <= decide(w).n <= 3
      && (decide(w).n >= 2 ==> w.gm1 != "")
      && (decide(w).n == 3 ==> w.gm2 != "")
  }

  /** The rule battery is such a decision. */
  lemma AcaoEmAdmissivel()
    ensures Admissivel(AcaoEm)
  {
    forall w: Janela
      ensures AcaoEm(w).Fecha? ==>
                1 <= AcaoEm(w).n <= 3
                && (AcaoEm(w).n >= 2 ==> w.gm1 != "")
                && (AcaoEm(w).n == 3 ==> w.gm2 != "")
    {
      GrafemasConsumidosExistem(w);
    }
  }

  /** The text a closing case takes from the window: 1, 2 or 3 graphemes. */
  function Consumidos(w: Janela, n: nat): (t: string)
  {
    if n == 1 then w.gm0
    else if n == 2 then w.gm0 + w.gm1
    else w.gm0 + w.gm1 + w.gm2
  }

  /** A closing case never runs past the end of the word, and what it takes
      from the window is exactly the next `n` graphemes. */
  lemma FechaDentroDaPalavra(decide: Janela -> Acao, g: seq<string>, i: nat, iSilaba: nat, n: nat)
    requires Admissivel(decide) && i < |g|
    requires decide(JanelaEm(g, i, iSilaba)) == Fecha(n)
    ensures 1 <= n <= 3 && i + n <= |g|
    ensures Consumidos(JanelaEm(g, i, iSilaba), n) == Concat(g[i..i + n])
  {
    ConcatCurta(g[i..i + n]);
  }

  lemma Associa(a: string, b: string, c: string)
    ensures (a + b) + c == a + (b + c)
  {
  }

  /** The syllables appended from cursor `i` on, with `buffer` pending. */
  function Varre(decide: Janela -> Acao, g: seq<string>, i: nat, buffer: seq<string>): (v: seq<string>)
    requires Admissivel(decide) && i <= |g|
    decreases |g| - i
  {
    if i == |g| then
      if Concat(buffer) != "" then [Concat(buffer)] else []
    else if !Vogal(g[i]) then
      Varre(decide, g, i + 1, buffer + [g[i]])
    else
      var w := JanelaEm(g, i, |buffer|);
      match decide(w)
      case Fecha(n) =>
        FechaDentroDaPalavra(decide, g, i, |buffer|, n);
        [Concat(buffer) + Consumidos(w, n)] + Varre(decide, g, i + n, [])
      case ConsomeResto =>
        [Concat(buffer) + Concat(g[i..])]
  }

  /** The syllables of a grapheme sequence. */
  function Silabar(g: seq<string>): (silabas: seq<string>)
  {
    if g == [] then []
    else
      AcaoEmAdmissivel();
      Varre(AcaoEm, g, 0, [])
  }

  /** The rule battery seen only through its window-by-window agreement with
      `AcaoEm`: the loop's proof reasons about the scan without unfolding the
      rules at every position. */
  lemma Decisor(g: seq<string>) returns (decide: Janela -> Acao)
    ensures Admissivel(decide)
    ensures forall w {:trigger AcaoEm(w)} :: decide(w) == AcaoEm(w)
    ensures g != [] ==> Silabar(g) == Varre(decide, g, 0, [])
  {
    AcaoEmAdmissivel();
    decide := AcaoEm;
  }

  /** The end of the scan: a non-empty pending text is the last syllable. */
  lemma VarreFim(decide: Janela -> Acao, g: seq<string>, buffer: seq<string>)
    requires Admissivel(decide)
    ensures Varre(decide, g, |g|, buffer) == if Concat(buffer) != "" then [Concat(buffer)] else []
  {
  }

  /** One step of the scan at a non-vowel: it joins the pending graphemes. */
  lemma VarreConsoante(decide: Janela -> Acao, g: seq<string>, i: nat, buffer: seq<string>)
    requires Admissivel(decide) && i < |g| && !Vogal(g[i])
    ensures Varre(decide, g, i, buffer) == Varre(decide, g, i + 1, buffer + [g[i]])
  {
  }

  /** One step of the scan at a vowel whose case closes after `n` graphemes. */
  lemma VarreFecha(decide: Janela -> Acao, g: seq<string>, i: nat, buffer: seq<string>, n: nat)
    requires Admissivel(decide) && i < |g| && Vogal(g[i])
    requires decide(JanelaEm(g, i, |buffer|)) == Fecha(n)
    ensures 1 <= n <= 3 && i + n <= |g|
    ensures Varre(decide, g, i, buffer)
            == [Concat(buffer) + Consumidos(JanelaEm(g, i, |buffer|), n)]
               + Varre(decide, g, i + n, [])
  {
    FechaDentroDaPalavra(decide, g, i, |buffer|, n);
  }

  /** One step of the scan at a vowel whose case takes the rest of the word. */
  lemma VarreResto(decide: Janela -> Acao, g: seq<string>, i: nat, buffer: seq<string>)
    requires Admissivel(decide) && i < |g| && Vogal(g[i])
    requires decide(JanelaEm(g, i, |buffer|)) == ConsomeResto
    ensures Varre(decide, g, i, buffer) == [Concat(buffer) + Concat(g[i..])]
  {
  }

  /** The loop's invariant `feitas + Varre(decide, g, i, buffer) == alvo`
      survives closing a syllable after `n` graphemes. */
  lemma AvancaFecha(decide: Janela -> Acao, g: seq<string>, i: nat, buffer: seq<string>, n: nat,
                    feitas: seq<string>, alvo: seq<string>)
    requires Admissivel(decide) && i < |g| && Vogal(g[i])
    requires decide(JanelaEm(g, i, |buffer|)) == Fecha(n)
    requires feitas + Varre(decide, g, i, buffer) == alvo
    ensures 1 <= n <= 3 && i + n <= |g|
    ensures (feitas + [Concat(buffer) + Consumidos(JanelaEm(g, i, |buffer|), n)])
            + Varre(decide, g, i + n, []) == alvo
  {
    VarreFecha(decide, g, i, buffer, n);
    AssociaSeq(feitas, [Concat(buffer) + Consumidos(JanelaEm(g, i, |buffer|), n)],
               Varre(decide, g, i + n, []));
  }

  /** The same for the case that takes the rest of the word: nothing is left. */
  lemma AvancaResto(decide: Janela -> Acao, g: seq<string>, i: nat, buffer: seq<string>,
                    feitas: seq<string>, alvo: seq<string>)
    requires Admissivel(decide) && i < |g| && Vogal(g[i])
    requires decide(JanelaEm(g, i, |buffer|)) == ConsomeResto
    requires feitas + Varre(decide, g, i, buffer) == alvo
    ensures (feitas + [Concat(buffer) + Concat(g[i..])]) + Varre(decide, g, |g|, []) == alvo
  {
    VarreResto(decide, g, i, buffer);
    VarreFim(decide, g, []);
  }

  /** The same for a non-vowel, which joins the pending graphemes. */
  lemma AvancaConsoante(decide: Janela -> Acao, g: seq<string>, i: nat, buffer: seq<string>,
                        feitas: seq<string>, alvo: seq<string>)
    requires Admissivel(decide) && i < |g| && !Vogal(g[i])
    requires feitas + Varre(decide, g, i, buffer) == alvo
    ensures feitas + Varre(decide, g, i + 1, buffer + [g[i]]) == alvo
    ensures Concat(buffer + [g[i]]) == Concat(buffer) + g[i]
  {
    VarreConsoante(decide, g, i, buffer);
    ConcatJunta(buffer, [g[i]]);
    ConcatCurta([g[i]]);
  }

  /** After the last grapheme the pending text, if any, completes the syllables. */
  lemma AvancaFim(decide: Janela -> Acao, g: seq<string>, buffer: seq<string>,
                  feitas: seq<string>, alvo: seq<string>)
    requires Admissivel(decide)
    requires feitas + Varre(decide, g, |g|, buffer) == alvo
    ensures (if |Concat(buffer)| > 0 then feitas + [Concat(buffer)] else feitas) == alvo
  {
    VarreFim(decide, g, buffer);
  }

  /** `v` cuts the text `t` into at most `limite` non-empty pieces. */
  predicate Particao(v: seq<string>, t: string, limite: int)
  {
    Concat(v) == t && (forall k :: 0 <= k < |v| ==> v[k] != "") && |v| <= limite
  }

  /** The final flush: the pending text, if any, is the last syllable. */
  lemma ParticaoFim(t: string, limite: int)
    requires t != "" ==> 1 <= limite
    requires 0 <= limite
    ensures Particao(if t != "" then [t] else [], t, limite)
  {
    if t != "" {
      ConcatCurta([t]);
    }
  }

  /** A non-empty syllable in front of a partition of the rest. */
  lemma ParticaoCons(x: string, resto: seq<string>, t: string, limite: int)
    requires x != "" && Particao(resto, t, limite - 1)
    ensures Particao([x] + resto, x + t, limite)
  {
    ConcatCons(x, resto);
  }

  /** Moving one non-vowel grapheme from the word into the pending graphemes
      does not change the text still to be cut. */
  lemma PendenteMaisUm(g: seq<string>, i: nat, buffer: seq<string>)
    requires i < |g|
    ensures Concat(buffer + [g[i]]) + Concat(g[i + 1..]) == Concat(buffer) + Concat(g[i..])
  {
    ConcatCorta(g, i, i + 1);
    ConcatCurta(g[i..i + 1]);
    ConcatJunta(buffer, [g[i]]);
    ConcatCurta([g[i]]);
    Associa(Concat(buffer), g[i], Concat(g[i + 1..]));
  }

  /** Closing the syllable after `n` graphemes of the word splits the text. */
  lemma FechaParte(g: seq<string>, i: nat, n: nat, b: string)
    requires i + n <= |g|
    ensures (b + Concat(g[i..i + n])) + Concat(g[i + n..]) == b + Concat(g[i..])
  {
    ConcatCorta(g, i, i + n);
    Associa(b, Concat(g[i..i + n]), Concat(g[i + n..]));
  }

  /** What the scan appends from cursor `i` on is the pending text and the rest
      of the word, cut into non-empty syllables, at most one per grapheme. */
  lemma {:induction false} VarreSemPerda(decide: Janela -> Acao, g: seq<string>, i: nat,
                                          buffer: seq<string>)
    requires Admissivel(decide) && i <= |g|
    decreases |g| - i
    ensures Particao(Varre(decide, g, i, buffer), Concat(buffer) + Concat(g[i..]),
                     |g| - i + |buffer|)
  {
    if i == |g| {
      VarreFim(decide, g, buffer);
      assert g[i..] == [];
      ParticaoFim(Concat(buffer) + Concat(g[i..]), |buffer|);
    } else if !Vogal(g[i]) {
      VarreConsoante(decide, g, i, buffer);
      VarreSemPerda(decide, g, i + 1, buffer + [g[i]]);
      PendenteMaisUm(g, i, buffer);
    } else {
      var a := decide(JanelaEm(g, i, |buffer|));
      if a.Fecha? {
        FechaDentroDaPalavra(decide, g, i, |buffer|, a.n);
        VarreSemPerda(decide, g, i + a.n, []);
        SemPerdaFecha(decide, g, i, buffer, a.n);
      } else {
        VarreResto(decide, g, i, buffer);
        ComecaNaVogal(g, i, |g| - i);
        assert g[i..|g|] == g[i..];
        ParticaoFim(Concat(buffer) + Concat(g[i..]), |g| - i + |buffer|);
      }
    }
  }

  /** The induction step of `VarreSemPerda` at a vowel whose case closes the
      syllable after `n` graphemes. */
  lemma SemPerdaFecha(decide: Janela -> Acao, g: seq<string>, i: nat, buffer: seq<string>, n: nat)
    requires Admissivel(decide) && i < |g| && Vogal(g[i])
    requires decide(JanelaEm(g, i, |buffer|)) == Fecha(n)
    requires i + n <= |g|
    requires Particao(Varre(decide, g, i + n, []), Concat(g[i + n..]), |g| - (i + n))
    ensures Particao(Varre(decide, g, i, buffer), Concat(buffer) + Concat(g[i..]),
                     |g| - i + |buffer|)
  {
    VarreFecha(decide, g, i, buffer, n);
    FechaDentroDaPalavra(decide, g, i, |buffer|, n);
    ParticaoFecha(g, i, buffer, n, Varre(decide, g, i + n, []));
  }

  /** Graphemes starting at a vowel concatenate to a non-empty text. */
  lemma ComecaNaVogal(g: seq<string>, i: nat, n: nat)
    requires i < |g| && Vogal(g[i]) && 1 <= n && i + n <= |g|
    ensures Concat(g[i..i + n]) != ""
  {
    var h := g[i..i + n];
    assert h[0] == g[i];
    assert Concat(h) == h[0] + Concat(h[1..]);
  }

  /** A syllable closed after `n >= 1` graphemes, the first of them a vowel, in
      front of a partition of the rest of the word. */
  lemma ParticaoFecha(g: seq<string>, i: nat, buffer: seq<string>, n: nat, resto: seq<string>)
    requires i < |g| && Vogal(g[i]) && 1 <= n && i + n <= |g|
    requires Particao(resto, Concat(g[i + n..]), |g| - (i + n))
    ensures Particao([Concat(buffer) + Concat(g[i..i + n])] + resto,
                     Concat(buffer) + Concat(g[i..]), |g| - i + |buffer|)
  {
    ComecaNaVogal(g, i, n);
    FechaParte(g, i, n, Concat(buffer));
    ParticaoCons(Concat(buffer) + Concat(g[i..i + n]), resto, Concat(g[i + n..]),
                 |g| - i + |buffer|);
  }

  /** The syllables are a lossless partition of the word into non-empty
      syllables, at most one per grapheme, and none only for an empty word. */
  lemma SilabarSemPerda(g: seq<string>)
    ensures Concat(Silabar(g)) == Concat(g)
    ensures forall k :: 0 <= k < |Silabar(g)| ==> Silabar(g)[k] != ""
    ensures |Silabar(g)| <= |g|
    ensures Silabar(g) == [] <==> Concat(g) == ""
  {
    if g != [] {
      var decide := Decisor(g);
      VarreSemPerda(decide, g, 0, []);
      assert g[0..] == g;
      assert Concat([]) + Concat(g) == Concat(g);
      if Concat(g) == "" {
        ConcatVazia(Silabar(g));
      }
    }
  }

  /** `s` contains a vowel character. */
  predicate TemVogal(s: string)
  {
    exists j :: 0 <= j < |s| && Vogal([s[j]])
  }

  /** A syllable whose text after the pending consonants `c` starts with a
      vowel grapheme contains a vowel. */
  lemma VogalNaSilaba(c: string, v: string, t: string)
    requires Vogal(v)
    ensures TemVogal(c + (v + t))
  {
    var s := c + (v + t);
    assert s[|c|] == v[0];
    assert [v[0]] == v;
  }

  lemma ComVogalNaFrente(s: string, resto: seq<string>)
    requires TemVogal(s)
    requires forall k :: 0 <= k < |resto| - 1 ==> TemVogal(resto[k])
    ensures forall k :: 0 <= k < |[s] + resto| - 1 ==> TemVogal(([s] + resto)[k])
  {
    forall k | 0 < k < |[s] + resto| - 1
      ensures TemVogal(([s] + resto)[k])
    {
      assert ([s] + resto)[k] == resto[k - 1];
    }
  }

  /** Every syllable except possibly the last is closed at a vowel and
      contains it. */
  lemma {:induction false} VarreTemVogal(decide: Janela -> Acao, g: seq<string>, i: nat,
                                          buffer: seq<string>)
    requires Admissivel(decide) && i <= |g|
    decreases |g| - i
    ensures forall k :: 0 <= k < |Varre(decide, g, i, buffer)| - 1
                        ==> TemVogal(Varre(decide, g, i, buffer)[k])
  {
    if i < |g| {
      if !Vogal(g[i]) {
        VarreConsoante(decide, g, i, buffer);
        VarreTemVogal(decide, g, i + 1, buffer + [g[i]]);
      } else {
        var w := JanelaEm(g, i, |buffer|);
        var a := decide(w);
        if a.Fecha? {
          var n := a.n;
          VarreFecha(decide, g, i, buffer, n);
          VarreTemVogal(decide, g, i + n, []);
          var t := if n == 1 then "" else if n == 2 then w.gm1 else w.gm1 + w.gm2;
          assert Consumidos(w, n) == w.gm0 + t;
          VogalNaSilaba(Concat(buffer), w.gm0, t);
          ComVogalNaFrente(Concat(buffer) + Consumidos(w, n), Varre(decide, g, i + n, []));
        }
      }
    }
  }

  /** Every syllable of a word except possibly the last contains a vowel. */
  lemma SilabasTemVogal(g: seq<string>)
    ensures forall k :: 0 <= k < |Silabar(g)| - 1 ==> TemVogal(Silabar(g)[k])
  {
    if g != [] {
      var decide := Decisor(g);
      VarreTemVogal(decide, g, 0, []);
    }
  }

  /** Without vowels from the cursor on, everything pending and everything left
      becomes one syllable, appended by the final flush. */
  lemma {:induction false} VarreSemVogal(decide: Janela -> Acao, g: seq<string>, i: nat,
                                          buffer: seq<string>)
    requires Admissivel(decide) && i <= |g|
    requires forall k :: i <= k < |g| ==> !Vogal(g[k])
    decreases |g| - i
    ensures var t := Concat(buffer) + Concat(g[i..]);
            Varre(decide, g, i, buffer) == if t != "" then [t] else []
  {
    if i < |g| {
      VarreConsoante(decide, g, i, buffer);
      VarreSemVogal(decide, g, i + 1, buffer + [g[i]]);
      PendenteMaisUm(g, i, buffer);
    } else {
      assert g[i..] == [];
      assert Concat(buffer) + Concat(g[i..]) == Concat(buffer);
    }
  }

  /** A word without vowel graphemes is a single syllable: the whole word. */
  lemma PalavraSemVogal(g: seq<string>)
    requires forall k :: 0 <= k < |g| ==> !Vogal(g[k])
    requires Concat(g) != ""
    ensures Silabar(g) == [Concat(g)]
  {
    var decide := Decisor(g);
    assert g != [] && g[0..] == g;
    VarreSemVogal(decide, g, 0, []);
    assert Concat([]) + Concat(g) == Concat(g);
  }

  lemma ComVogalEmTodas(s: string, resto: seq<string>)
    requires TemVogal(s)
    requires forall k :: 0 <= k < |resto| ==> TemVogal(resto[k])
    ensures forall k :: 0 <= k < |[s] + resto| ==> TemVogal(([s] + resto)[k])
  {
    forall k | 0 < k < |[s] + resto|
      ensures TemVogal(([s] + resto)[k])
    {
      assert ([s] + resto)[k] == resto[k - 1];
    }
  }

  /** When the last grapheme is a vowel, the scan decides at it and ends with
      nothing pending, so no final flush happens and every syllable has a vowel. */
  lemma {:induction false} VarreUltimaComVogal(decide: Janela -> Acao, g: seq<string>, i: nat,
                                               buffer: seq<string>)
    requires Admissivel(decide) && i <= |g| && g != [] && Vogal(g[|g| - 1])
    requires i == |g| ==> buffer == []
    decreases |g| - i
    ensures forall k :: 0 <= k < |Varre(decide, g, i, buffer)|
                        ==> TemVogal(Varre(decide, g, i, buffer)[k])
  {
    if i == |g| {
      VarreFim(decide, g, buffer);
    } else if !Vogal(g[i]) {
      VarreConsoante(decide, g, i, buffer);
      VarreUltimaComVogal(decide, g, i + 1, buffer + [g[i]]);
    } else {
      var w := JanelaEm(g, i, |buffer|);
      var a := decide(w);
      if a.Fecha? {
        var n := a.n;
        VarreFecha(decide, g, i, buffer, n);
        VarreUltimaComVogal(decide, g, i + n, []);
        var t := if n == 1 then "" else if n == 2 then w.gm1 else w.gm1 + w.gm2;
        assert Consumidos(w, n) == w.gm0 + t;
        VogalNaSilaba(Concat(buffer), w.gm0, t);
        ComVogalEmTodas(Concat(buffer) + Consumidos(w, n), Varre(decide, g, i + n, []));
      } else {
        VarreResto(decide, g, i, buffer);
        assert g[i..] == [g[i]] + g[i + 1..];
        ConcatCons(g[i], g[i + 1..]);
        VogalNaSilaba(Concat(buffer), g[i], Concat(g[i + 1..]));
      }
    }
  }

  /** A word whose last grapheme is a vowel has a vowel in every syllable. */
  lemma SilabasComVogal(g: seq<string>)
    ensures g != [] && Vogal(g[|g| - 1]) ==>
              forall k :: 0 <= k < |Silabar(g)| ==> TemVogal(Silabar(g)[k])
  {
    if g != [] && Vogal(g[|g| - 1]) {
      var decide := Decisor(g);
      VarreUltimaComVogal(decide, g, 0, []);
    }
  }

  /** The windows the scan decides at, one per vowel it closes a syllable at,
      in scan order. */
  ghost function Janelas(decide: Janela -> Acao, g: seq<string>, i: nat, buffer: seq<string>)
    : (ws: seq<Janela>)
    requires Admissivel(decide) && i <= |g|
    decreases |g| - i
  {
    if i == |g| then []
    else if !Vogal(g[i]) then Janelas(decide, g, i + 1, buffer + [g[i]])
    else
      var w := JanelaEm(g, i, |buffer|);
      match decide(w)
      case Fecha(n) =>
        FechaDentroDaPalavra(decide, g, i, |buffer|, n);
        [w] + Janelas(decide, g, i + n, [])
      case ConsomeResto => [w]
  }

  /** The scan reads its decision only at those windows: two decisions that
      agree there give the same syllables. */
  lemma {:induction false} VarreSoConsulta(d1: Janela -> Acao, d2: Janela -> Acao, g: seq<string>,
                                           i: nat, buffer: seq<string>)
    requires Admissivel(d1) && Admissivel(d2) && i <= |g|
    requires forall k :: 0 <= k < |Janelas(d1, g, i, buffer)|
                         ==> d1(Janelas(d1, g, i, buffer)[k]) == d2(Janelas(d1, g, i, buffer)[k])
    decreases |g| - i
    ensures Varre(d1, g, i, buffer) == Varre(d2, g, i, buffer)
  {
    if i < |g| {
      if !Vogal(g[i]) {
        assert Janelas(d1, g, i, buffer) == Janelas(d1, g, i + 1, buffer + [g[i]]);
        VarreSoConsulta(d1, d2, g, i + 1, buffer + [g[i]]);
      } else {
        var w := JanelaEm(g, i, |buffer|);
        assert Janelas(d1, g, i, buffer)[0] == w;
        if d1(w).Fecha? {
          var n := d1(w).n;
          FechaDentroDaPalavra(d1, g, i, |buffer|, n);
          var resto := Janelas(d1, g, i + n, []);
          forall k | 0 <= k < |resto|
            ensures d1(resto[k]) == d2(resto[k])
          {
            assert resto[k] == Janelas(d1, g, i, buffer)[k + 1];
          }
          VarreSoConsulta(d1, d2, g, i + n, []);
        }
      }
    }
  }

  /** In each window with a syllable already open, the grapheme before the
      vowel is not a vowel. */
  predicate ConsoanteAntesDaVogal(ws: seq<Janela>)
  {
    forall k :: 0 <= k < |ws| ==> (ws[k].iSilaba != 0 ==> !Vogal(ws[k].ga1))
  }

  lemma ConsoanteAntesCons(w: Janela, resto: seq<Janela>)
    requires w.iSilaba != 0 ==> !Vogal(w.ga1)
    requires ConsoanteAntesDaVogal(resto)
    ensures ConsoanteAntesDaVogal([w] + resto)
  {
    forall k | 0 < k < |[w] + resto|
      ensures ([w] + resto)[k].iSilaba != 0 ==> !Vogal(([w] + resto)[k].ga1)
    {
      assert ([w] + resto)[k] == resto[k - 1];
    }
  }

  lemma JanelasFecha(decide: Janela -> Acao, g: seq<string>, i: nat, buffer: seq<string>, n: nat)
    requires Admissivel(decide) && i < |g| && Vogal(g[i])
    requires decide(JanelaEm(g, i, |buffer|)) == Fecha(n)
    ensures i + n <= |g|
    ensures Janelas(decide, g, i, buffer) == [JanelaEm(g, i, |buffer|)] + Janelas(decide, g, i + n, [])
  {
    FechaDentroDaPalavra(decide, g, i, |buffer|, n);
  }

  /** Every window the scan decides at with a syllable already open has a
      pending consonant just before the vowel. */
  lemma {:induction false} ConsoanteAntes(decide: Janela -> Acao, g: seq<string>, i: nat,
                                          buffer: seq<string>)
    requires Admissivel(decide) && i <= |g|
    requires buffer != [] ==> 1 <= i && !Vogal(g[i - 1])
    decreases |g| - i
    ensures ConsoanteAntesDaVogal(Janelas(decide, g, i, buffer))
  {
    if i < |g| {
      if !Vogal(g[i]) {
        assert Janelas(decide, g, i, buffer) == Janelas(decide, g, i + 1, buffer + [g[i]]);
        ConsoanteAntes(decide, g, i + 1, buffer + [g[i]]);
      } else {
        var w := JanelaEm(g, i, |buffer|);
        assert w.iSilaba != 0 ==> !Vogal(w.ga1) by {
          JanelaExplicita(g, i, |buffer|);
        }
        if decide(w).Fecha? {
          var n := decide(w).n;
          JanelasFecha(decide, g, i, buffer, n);
          ConsoanteAntes(decide, g, i + n, []);
          ConsoanteAntesCons(w, Janelas(decide, g, i + n, []));
        } else {
          ConsoanteAntesCons(w, []);
          assert Janelas(decide, g, i, buffer) == [w] + [];
        }
      }
    }
  }

  /** The windows the syllabifier decides at for a word. */
  ghost function JanelasDaPalavra(g: seq<string>): (ws: seq<Janela>)
  {
    AcaoEmAdmissivel();
    Janelas(AcaoEm, g, 0, [])
  }

  /** Rule 13 never fires while a word is syllabified, and rule 11 fires only
      through its consonant alternative. */
  lemma Regra13NuncaDispara(g: seq<string>)
    ensures forall k :: 0 <= k < |JanelasDaPalavra(g)| ==>
              !Dispara(R13, JanelasDaPalavra(g)[k]) && Seleciona(JanelasDaPalavra(g)[k]) != Some(R13)
    ensures forall k :: 0 <= k < |JanelasDaPalavra(g)| && Dispara(R11, JanelasDaPalavra(g)[k]) ==>
              Consoante(JanelasDaPalavra(g)[k].ga1, JanelasDaPalavra(g)[k].gm0)
  {
    AcaoEmAdmissivel();
    ConsoanteAntes(AcaoEm, g, 0, []);
    assert ConsoanteAntesDaVogal(JanelasDaPalavra(g));
    forall k | 0 <= k < |JanelasDaPalavra(g)|
      ensures !Dispara(R13, JanelasDaPalavra(g)[k]) && Seleciona(JanelasDaPalavra(g)[k]) != Some(R13)
      ensures Dispara(R11, JanelasDaPalavra(g)[k]) ==>
                Consoante(JanelasDaPalavra(g)[k].ga1, JanelasDaPalavra(g)[k].gm0)
    {
      GlideAntesDaVogal(JanelasDaPalavra(g)[k]);
    }
  }

  /** The first `m` syllables of `v` contain a vowel. */
  predicate ComVogalAte(v: seq<string>, m: nat)
  {
    m <= |v| && forall k :: 0 <= k < m ==> TemVogal(v[k])
  }

  lemma ComVogalAteCons(s: string, v: seq<string>, m: nat)
    requires TemVogal(s) && ComVogalAte(v, m)
    ensures ComVogalAte([s] + v, m + 1)
  {
    forall k | 0 < k < m + 1
      ensures TemVogal(([s] + v)[k])
    {
      assert ([s] + v)[k] == v[k - 1];
    }
  }

  /** Each window the scan decides at emits one syllable, which contains the
      vowel decided at; the only other syllable the scan can emit is the final
      flush of pending consonants, after all of them. */
  lemma {:induction false} VarreNasJanelas(decide: Janela -> Acao, g: seq<string>, i: nat,
                                           buffer: seq<string>)
    requires Admissivel(decide) && i <= |g|
    decreases |g| - i
    ensures |Janelas(decide, g, i, buffer)| <= |Varre(decide, g, i, buffer)|
                                           <= |Janelas(decide, g, i, buffer)| + 1
    ensures ComVogalAte(Varre(decide, g, i, buffer), |Janelas(decide, g, i, buffer)|)
  {
    if i == |g| {
      VarreFim(decide, g, buffer);
    } else if !Vogal(g[i]) {
      VarreConsoante(decide, g, i, buffer);
      assert Janelas(decide, g, i, buffer) == Janelas(decide, g, i + 1, buffer + [g[i]]);
      VarreNasJanelas(decide, g, i + 1, buffer + [g[i]]);
    } else {
      var w := JanelaEm(g, i, |buffer|);
      var a := decide(w);
      if a.Fecha? {
        var n := a.n;
        VarreFecha(decide, g, i, buffer, n);
        JanelasFecha(decide, g, i, buffer, n);
        VarreNasJanelas(decide, g, i + n, []);
        var t := if n == 1 then "" else if n == 2 then w.gm1 else w.gm1 + w.gm2;
        assert Consumidos(w, n) == w.gm0 + t;
        VogalNaSilaba(Concat(buffer), w.gm0, t);
        ComVogalAteCons(Concat(buffer) + Consumidos(w, n), Varre(decide, g, i + n, []),
                        |Janelas(decide, g, i + n, [])|);
      } else {
        VarreResto(decide, g, i, buffer);
        assert Janelas(decide, g, i, buffer) == [w];
        assert g[i..] == [g[i]] + g[i + 1..];
        ConcatCons(g[i], g[i + 1..]);
        VogalNaSilaba(Concat(buffer), g[i], Concat(g[i + 1..]));
        ComVogalAteCons(Concat(buffer) + Concat(g[i..]), [], 0);
      }
    }
  }

  /** A word has one syllable per window the syllabifier decides at, each with
      a vowel, and at most one more: the final flush of the consonants after
      the last such window, which is the only syllable that can be vowel-free. */
  lemma SilabasNasJanelas(g: seq<string>)
    ensures |JanelasDaPalavra(g)| <= |Silabar(g)| <= |JanelasDaPalavra(g)| + 1
    ensures forall k :: 0 <= k < |JanelasDaPalavra(g)| ==> TemVogal(Silabar(g)[k])
  {
    AcaoEmAdmissivel();
    if g != [] {
      VarreNasJanelas(AcaoEm, g, 0, []);
    }
    assert ComVogalAte(Silabar(g), |JanelasDaPalavra(g)|);
  }
}
