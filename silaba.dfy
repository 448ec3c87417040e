/** The `Palavra` object: the normalised word `p`, its graphemes and its
    syllables, kept in step by `SetPalavra`, with the queries over the result. */
module Silaba {
  import opened Classificadores
  import opened Grafemas
  import opened Regras
  import opened Silabacao

  /** The word type by syllable count; 0 syllables counts as "Polissílaba". */
  function Tipo(n: nat): (t: string)
    ensures t == "Monossílaba" <==> n == 1
    ensures t == "Bisílaba" <==> n == 2
    ensures t == "Trissílaba" <==> n == 3
    ensures t == "Polissílaba" <==> n == 0 || n > 3
  {
    if n == 1 then "Monossílaba"
    else if n == 2 then "Bisílaba"
    else if n == 3 then "Trissílaba"
    else "Polissílaba"
  }

  /** Syllable `k` counted from the end (1 is the last), or "" when `k` is out of range. */
  function SilabaDoFim(silabas: seq<string>, k: int): (r: string)
    ensures 1 <= k <= |silabas| ==> r == silabas[|silabas| - k]
    ensures !(1 <= k <= |silabas|) ==> r == ""
  {
    if 1 <= k <= |silabas| then silabas[|silabas| - k] else ""
  }

  /** Appending a syllable, as the scan does, makes it the first from the end
      and moves every earlier syllable one place further from the end. */
  lemma SilabaDoFimAcrescenta(silabas: seq<string>, x: string, k: int)
    ensures SilabaDoFim(silabas + [x], 1) == x
    ensures 1 <= k <= |silabas| ==> SilabaDoFim(silabas + [x], k + 1) == SilabaDoFim(silabas, k)
    ensures !(1 <= k <= |silabas| + 1) ==> SilabaDoFim(silabas + [x], k) == ""
  {
  }

  class Palavra {
    var p: string
    var grafemas: seq<string>
    var silabas: seq<string>

    /** The graphemes and the syllables are those of the current word. */
    ghost predicate Valid()
      reads this
    {
      grafemas == Segmentar(p) && silabas == Silabar(grafemas)
    }

    constructor()
      ensures p == "" && grafemas == [] && silabas == []
      ensures Valid()
    {
      p := "";
      grafemas := [];
      silabas := [];
    }

    /** Takes the already normalised word and recomputes graphemes and syllables,
        replacing whatever the object held before. */
    method SetPalavra(palavra: string)
      modifies this
      ensures p == palavra && Valid()
      ensures Concat(grafemas) == p && Concat(silabas) == p
      ensures forall k :: 0 <= k < |silabas| ==> silabas[k] != ""
      ensures |silabas| <= |grafemas| <= |p|
    {
      p := palavra;
      grafemas := SepararGrafemas();
      var ok := Silabear();
      SilabarSemPerda(grafemas);
    }

    /** The number of syllables: none exactly for the empty word, and never
        more than there are graphemes. */
    function QuantidadeDeSilabas(): (n: nat)
      reads this
      ensures Valid() ==> (n == 0 <==> p == "") && n <= |grafemas| <= |p|
    {
      SilabarSemPerda(grafemas);
      |silabas|
    }

    /** The word's type by its syllable count. */
    function TipoDePalavra(): (t: string)
      reads this
      ensures t == "Monossílaba" <==> |silabas| == 1
      ensures t == "Bisílaba" <==> |silabas| == 2
      ensures t == "Trissílaba" <==> |silabas| == 3
      ensures t == "Polissílaba" <==> |silabas| == 0 || |silabas| > 3
      ensures Valid() && p == "" ==> t == "Polissílaba"
    {
      SilabarSemPerda(grafemas);
      Tipo(QuantidadeDeSilabas())
    }

    /** Syllable `indice` counted from the end: non-empty exactly when the index
        is in range, and then the word is the syllables before it, it, and the
        syllables after it. */
    function Silaba(indice: int): (r: string)
      reads this
      ensures 1 <= indice <= |silabas| ==> r == silabas[|silabas| - indice]
      ensures Valid() ==> (r != "" <==> 1 <= indice <= |silabas|)
      ensures Valid() && 1 <= indice <= |silabas| ==>
                p == Concat(silabas[..|silabas| - indice]) + r
                     + Concat(silabas[|silabas| - indice + 1..])
    {
      SilabarSemPerda(grafemas);
      if 1 <= indice <= |silabas| then
        ConcatEmTorno(silabas, |silabas| - indice);
        SilabaDoFim(silabas, indice)
      else SilabaDoFim(silabas, indice)
    }

    /** The greedy segmenting scan over `p`. */
    method SepararGrafemas() returns (r: seq<string>)
      ensures r == Segmentar(p)
    {
      r := [];
      var i := 0;
      while i < |p|
        invariant i <= |p|
        invariant Segmentar(p) == r + Segmentar(p[i..])
        decreases |p| - i
      {
        var gm0, gm1, gm2 := Car(p, i), Car(p, i + 1), Car(p, i + 2);
        SegmentarPasso(p, i);
        ghost var x := Primeiro(p[i..]);
        ghost var prox := i + |x|;
        ghost var resto := Segmentar(p[prox..]);
        ghost var antes := r;
        if gm0 + gm1 in Digrafos {
          DuploTamanho(gm0, gm1);
          r := r + [gm0 + gm1];
          i := i + 2;
        } else if gm0 + gm1 in Especiais && gm2 in ["e", "i"] {
          DuploTamanho(gm0, gm1);
          r := r + [gm0 + gm1];
          i := i + 2;
        } else {
          r := r + [gm0];
          i := i + 1;
        }
        assert i == prox && r == antes + [x];
        AssociaSeq(antes, [x], resto);
      }
      assert p[i..] == [];
    }

    /** The cursor loop. `s` is the syllable under construction and `iSilaba`
        the number of graphemes in it; `buffer` is those graphemes: the
        non-vowels just before the cursor, so when `iSilaba != 0` the grapheme
        before the cursor is not a vowel (see `Regra13NuncaDispara`). */
    method Silabear() returns (ok: bool)
      modifies this`silabas
      ensures ok <==> grafemas != []
      ensures silabas == Silabar(grafemas)
    {
      silabas := [];
      if grafemas == [] {
        return false;
      }
      var g := grafemas;
      ghost var decide := Decisor(g);
      ghost var alvo := Varre(decide, g, 0, []);
      var i := 0;
      var iSilaba := 0;
      var s := "";
      ghost var buffer: seq<string> := [];
      while i < |g|
        invariant i <= |g|
        invariant s == Concat(buffer) && iSilaba == |buffer|
        invariant buffer != [] ==> 1 <= i && !Vogal(g[i - 1])
        invariant forall k :: 0 <= k < |buffer| ==> !Vogal(buffer[k])
        invariant silabas + Varre(decide, g, i, buffer) == alvo
        decreases |g| - i
      {
        if !Vogal(g[i]) {
          AvancaConsoante(decide, g, i, buffer, silabas, alvo);
          s := s + g[i];
          i := i + 1;
          iSilaba := iSilaba + 1;
          buffer := buffer + [g[i - 1]];
        } else {
          var silaba, j := FechaNaVogal(g, i, iSilaba, s, decide);
          ghost var a := decide(JanelaEm(g, i, |buffer|));
          if a.Fecha? {
            AvancaFecha(decide, g, i, buffer, a.n, silabas, alvo);
          } else {
            AvancaResto(decide, g, i, buffer, silabas, alvo);
          }
          silabas := silabas + [silaba];
          i := j;
          iSilaba := 0;
          s := "";
          buffer := [];
        }
      }
      AvancaFim(decide, g, buffer, silabas, alvo);
      if |s| > 0 {
        silabas := silabas + [s];
      }
      return true;
    }
  }

  /** The loop's branch at a vowel: the first rule that holds selects the case,
      and the case adds 1, 2 or 3 graphemes, or the rest of the word, to the
      syllable under construction `s` and closes it. Returns the closed syllable
      and the new cursor. `decide` is the rule battery as a function value. */
  method FechaNaVogal(g: seq<string>, i: nat, iSilaba: nat, s: string,
                      ghost decide: Janela -> Acao)
    returns (silaba: string, j: nat)
    requires i < |g| && Vogal(g[i])
    requires forall w {:trigger AcaoEm(w)} :: decide(w) == AcaoEm(w)
    ensures i < j <= |g|
    ensures decide(JanelaEm(g, i, iSilaba)).Fecha? ==>
              j == i + decide(JanelaEm(g, i, iSilaba)).n
              && silaba == s + Consumidos(JanelaEm(g, i, iSilaba), j - i)
    ensures decide(JanelaEm(g, i, iSilaba)) == ConsomeResto ==>
              j == |g| && silaba == s + Concat(g[i..])
  {
    var ga2 := if i >= 2 then g[i - 2] else "";
    var ga1 := if i >= 1 then g[i - 1] else "";
    var gm0 := g[i];
    var gm1 := if i + 1 < |g| then g[i + 1] else "";
    var gm2 := if i + 2 < |g| then g[i + 2] else "";
    var gm3 := if i + 3 < |g| then g[i + 3] else "";
    var gm4 := if i + 4 < |g| then g[i + 4] else "";
    var w := Janela(ga2, ga1, gm0, gm1, gm2, gm3, gm4, iSilaba);
    JanelaExplicita(g, i, iSilaba);
    var caso := CasoNaVogal(w, decide);
    silaba := s;
    j := i;
    if caso in {1, 3, 8} {
      silaba := silaba + gm0;
      j := j + 1;
    } else if caso in {2, 4, 9} {
      silaba := silaba + (gm0 + gm1);
      j := j + 2;
    } else if caso in {5, 7} {
      silaba := silaba + (gm0 + gm1 + gm2);
      j := j + 3;
    } else {
      // case 6 and every case without a branch of its own
      silaba := JuntaResto(g, i, s);
      j := |g|;
    }
  }

  /** The rule battery at a vowel: the case of the first rule that holds, 0
      when none does. Its action is the one `decide` prescribes, and a case
      that takes 2 or 3 graphemes only comes with those graphemes present. */
  method CasoNaVogal(w: Janela, ghost decide: Janela -> Acao) returns (caso: nat)
    requires forall w {:trigger AcaoEm(w)} :: decide(w) == AcaoEm(w)
    ensures decide(w) == AcaoDoCaso(caso)
    ensures caso in {2, 4, 9, 5, 7} ==> w.gm1 != ""
    ensures caso in {5, 7} ==> w.gm2 != ""
  {
    caso := CasoDe(Seleciona(w));
    GrafemasConsumidosExistem(w);
    assert decide(w) == AcaoEm(w);
  }

  /** The loop that appends every remaining grapheme to the syllable. */
  method JuntaResto(g: seq<string>, i: nat, s: string) returns (silaba: string)
    requires i <= |g|
    ensures silaba == s + Concat(g[i..])
  {
    silaba := s;
    var j := i;
    while j < |g|
      invariant i <= j <= |g|
      invariant silaba == s + Concat(g[i..j])
      decreases |g| - j
    {
      ConcatEstende(g, i, j);
      Associa(s, Concat(g[i..j]), g[j]);
      silaba := silaba + g[j];
      j := j + 1;
    }
    FatiaAteOFim(g, i, j);
  }
}
