/** The rule battery evaluated at each vowel. A rule reads only the window of
    graphemes around the cursor (two behind, the vowel, four ahead; "" where the
    word has no grapheme) and whether the syllable under construction is still
    empty. The first rule, in declaration order, whose predicate holds selects a
    "caso", and the caso says how many graphemes the syllable takes. */
module Regras {
  import opened Classificadores

  datatype Option<T> = None | Some(value: T)

  /** The graphemes around the cursor, and the number `iSilaba` of graphemes
      already in the syllable under construction. */
  datatype Janela = Janela(ga2: string, ga1: string, gm0: string, gm1: string,
                           gm2: string, gm3: string, gm4: string, iSilaba: nat)

  /** Grapheme `k` of `g`, or the absent marker "" outside the word. */
  function Em(g: seq<string>, k: int): (x: string)
    ensures 0 <= k < |g| ==> x == g[k]
    ensures !(0 <= k < |g|) ==> x == ""
  {
    if 0 <= k < |g| then g[k] else ""
  }

  /** The window at cursor `i` while the syllable under construction holds
      `iSilaba` graphemes. */
  function JanelaEm(g: seq<string>, i: nat, iSilaba: nat): (w: Janela)
    requires i < |g|
  {
    Janela(Em(g, i - 2), Em(g, i - 1), g[i], Em(g, i + 1), Em(g, i + 2),
           Em(g, i + 3), Em(g, i + 4), iSilaba)
  }

  /** The window spelled out component by component. */
  lemma JanelaExplicita(g: seq<string>, i: nat, iSilaba: nat)
    requires i < |g|
    ensures JanelaEm(g, i, iSilaba)
            == Janela(if i >= 2 then g[i - 2] else "", if i >= 1 then g[i - 1] else "", g[i],
                      if i + 1 < |g| then g[i + 1] else "", if i + 2 < |g| then g[i + 2] else "",
                      if i + 3 < |g| then g[i + 3] else "", if i + 4 < |g| then g[i + 4] else "",
                      iSilaba)
  {
  }

  /** The rules, named by their numbers; R8B is the variant of rule 8 checked first. */
  datatype Regra =
    | R5 | R3 | R1 | R2 | R4 | R6 | R7 | R8B | R8 | R9 | R10 | R16
    | R17 | R11 | R12 | R13 | R20 | R14 | R15 | R23 | R18 | R19 | R21 | R22

  /** The declaration order, which is the priority order. */
  const Ordem: seq<Regra> :=
    [R5, R3, R1, R2, R4, R6, R7, R8B, R8, R9, R10, R16,
     R17, R11, R12, R13, R20, R14, R15, R23, R18, R19, R21, R22]

  /** The rules that apply only at the start of a syllable. */
  predicate Inicial(r: Regra)
  {
    r in {R5, R3, R1, R2, R4}
  }

  /** The predicate of each rule over the window. Rules 5, 3, 1, 2 and 4 hold
      only when the syllable has no grapheme yet, all others only when it has. */
  predicate Dispara(r: Regra, w: Janela)
    ensures Dispara(r, w) ==> Vogal(w.gm0) && (Inicial(r) <==> w.iSilaba == 0)
  {
    var ga2, ga1, gm0, gm1, gm2, gm3, gm4 := w.ga2, w.ga1, w.gm0, w.gm1, w.gm2, w.gm3, w.gm4;
    var inicio := w.iSilaba == 0;
    Vogal(gm0) &&
    match r
    case R5 =>
      inicio && Consoante(gm1, gm2) && (Vogal(gm2) || ConsoanteLiquida(gm2))
    case R3 =>
      inicio && (Glide(gm1) || ConsoanteNasal(gm1) || Letra(gm1, {'s', 'r', 'l', 'x', 'c'}))
      && Consoante(gm2, gm3)
    case R1 =>
      inicio && Vogal(gm1)
    case R2 =>
      inicio && Consoante(gm1, gm2) && Consoante(gm2, gm3) && ConsoanteOclusiva(gm3, gm4)
    case R4 =>
      inicio && (ConsoanteOclusiva(gm1, gm2) || ConsoanteFricativa(gm1, gm2) || Letra(gm1, {'g'}))
      && (ConsoanteOclusiva(gm2, gm3) || ConsoanteNasal(gm2) || Letra(gm2, {'v'}))
      && Vogal(gm3)
    case R6 =>
      !inicio && Consoante(ga1, gm0) && Consoante(gm1, gm2) && Vogal(gm2)
    case R7 =>
      !inicio && Consoante(ga1, gm0) && Glide(gm1) && Letra(gm2, {'r'}) && Consoante(gm3, gm4)
    case R8B =>
      !inicio && (ConsoanteOclusiva(ga2, ga1) || ConsoanteFricativa(ga2, ga1))
      && ConsoanteLiquida(ga1) && (ConsoanteNasal(gm1) || Letra(gm1, {'s'}))
    case R8 =>
      !inicio && (ConsoanteOclusiva(ga2, ga1) || ConsoanteFricativa(ga2, ga1))
      && ConsoanteLiquida(ga1) && Consoante(gm1, gm2)
    case R9 =>
      !inicio && Consoante(ga1, gm0) && Glide(gm1) && Letra(gm2, {'s'}) && ConsoanteOclusiva(gm3, gm4)
    case R10 =>
      !inicio && Consoante(ga1, gm0) && ConsoanteNasal(gm1) && Letra(gm2, {'s'})
      && ConsoanteOclusiva(gm3, gm4)
    case R16 =>
      !inicio && Vogal(gm1) && gm1 == gm0
    case R17 =>
      !inicio && Consoante(ga1, gm0) && Vogal(gm1) && ConsoanteNasal(gm2)
    case R11 =>
      !inicio && (Consoante(ga1, gm0) || Glide(ga1)) && Glide(gm1) && Consoante(gm2, gm3)
    case R12 =>
      !inicio && Consoante(ga1, gm0) && Glide(gm1) && (Vogal(gm2) || Espaco(gm2))
    case R13 =>
      !inicio && Consoante(ga2, ga1) && Glide(ga1) && Consoante(gm1, gm2) && Vogal(gm2)
    case R20 =>
      !inicio && (ConsoanteOclusiva(gm1, gm2) || Letra(gm1, {'c', 'g'}))
      && ConsoanteLiquida(gm2) && Vogal(gm3)
    case R14 =>
      !inicio && Consoante(ga1, gm0)
      && (ConsoanteLiquida(gm1) || ConsoanteNasal(gm1) || Letra(gm1, {'s', 'c'}))
      && Consoante(gm2, gm3) && (Vogal(gm3) || ConsoanteLiquida(gm3))
    case R15 =>
      !inicio && Consoante(ga1, gm0)
      && (ConsoanteLiquida(gm1) || ConsoanteNasal(gm1) || Letra(gm1, {'i'}))
      && (Espaco(gm2) || Letra(gm2, {'s'}))
    case R23 =>
      !inicio && Letra(gm0, {'ã', 'õ'}) && Consoante(ga1, gm0) && (Letra(gm1, {'o', 'e'}) || Letra(gm2, {'s'}))
    case R18 =>
      !inicio && Consoante(ga1, gm0) && Vogal(gm1)
    case R19 =>
      !inicio && Consoante(ga1, gm0) && Vogal(gm1) && ConsoanteNasal(gm2) && Consoante(gm3, gm4)
    case R21 =>
      !inicio && Letra(gm0, {'i'}) && Letra(ga2, {'á', 'é', 'í', 'ó', 'ú'}) && Consoante(ga1, gm0)
      && Letra(gm1, {'a', 'o'})
    case R22 =>
      !inicio && Letra(gm0, {'i'}) && Consoante(ga1, gm0) && Letra(gm1, {'a', 'o'})
      && (Consoante(gm2, gm3) || Letra(gm2, {'i'}))
  }

  /** The position of a rule in the declaration order. */
  function Posicao(r: Regra): (k: nat)
    ensures k < |Ordem| && Ordem[k] == r
  {
    match r
    case R5 => 0   case R3 => 1   case R1 => 2   case R2 => 3   case R4 => 4
    case R6 => 5   case R7 => 6   case R8B => 7  case R8 => 8   case R9 => 9
    case R10 => 10 case R16 => 11 case R17 => 12 case R11 => 13 case R12 => 14
    case R13 => 15 case R20 => 16 case R14 => 17 case R15 => 18 case R23 => 19
    case R18 => 20 case R19 => 21 case R21 => 22 case R22 => 23
  }

  /** The index of the first rule of `rs` whose predicate holds, or |rs| if none does. */
  function PrimeiraQueDispara(rs: seq<Regra>, w: Janela): (k: nat)
  {
    if rs == [] then 0
    else if Dispara(rs[0], w) then 0
    else 1 + PrimeiraQueDispara(rs[1..], w)
  }

  /** The search stops at the first rule whose predicate holds, having passed
      only rules whose predicates fail. */
  lemma {:induction false} PrimeiraQueDisparaCorreta(rs: seq<Regra>, w: Janela)
    ensures PrimeiraQueDispara(rs, w) <= |rs|
    ensures PrimeiraQueDispara(rs, w) < |rs| ==> Dispara(rs[PrimeiraQueDispara(rs, w)], w)
    ensures forall j :: 0 <= j < PrimeiraQueDispara(rs, w) ==> !Dispara(rs[j], w)
  {
    if rs != [] && !Dispara(rs[0], w) {
      PrimeiraQueDisparaCorreta(rs[1..], w);
      var k := PrimeiraQueDispara(rs, w);
      forall j | 0 < j < k
        ensures !Dispara(rs[j], w)
      {
        assert rs[j] == rs[1..][j - 1];
      }
    }
  }

  /** Each rule occurs once in the order. */
  lemma OrdemSemRepeticao(k: nat)
    requires k < |Ordem|
    ensures Posicao(Ordem[k]) == k
  {
    if k == 0 { assert Ordem[0] == R5; }
    else if k == 1 { assert Ordem[1] == R3; }
    else if k == 2 { assert Ordem[2] == R1; }
    else if k == 3 { assert Ordem[3] == R2; }
    else if k == 4 { assert Ordem[4] == R4; }
    else if k == 5 { assert Ordem[5] == R6; }
    else if k == 6 { assert Ordem[6] == R7; }
    else if k == 7 { assert Ordem[7] == R8B; }
    else if k == 8 { assert Ordem[8] == R8; }
    else if k == 9 { assert Ordem[9] == R9; }
    else if k == 10 { assert Ordem[10] == R10; }
    else if k == 11 { assert Ordem[11] == R16; }
    else if k == 12 { assert Ordem[12] == R17; }
    else if k == 13 { assert Ordem[13] == R11; }
    else if k == 14 { assert Ordem[14] == R12; }
    else if k == 15 { assert Ordem[15] == R13; }
    else if k == 16 { assert Ordem[16] == R20; }
    else if k == 17 { assert Ordem[17] == R14; }
    else if k == 18 { assert Ordem[18] == R15; }
    else if k == 19 { assert Ordem[19] == R23; }
    else if k == 20 { assert Ordem[20] == R18; }
    else if k == 21 { assert Ordem[21] == R19; }
    else if k == 22 { assert Ordem[22] == R21; }
    else { assert Ordem[23] == R22; }
  }

  /** The rule that fires at a vowel; None when no rule holds. */
  function Seleciona(w: Janela): (r: Option<Regra>)
  {
    var k := PrimeiraQueDispara(Ordem, w);
    if k < |Ordem| then Some(Ordem[k]) else None
  }

  /** The selected rule is the first one, in declaration order, whose predicate
      holds, so at most one rule decides each vowel; None means no rule holds. */
  lemma SelecionaPrimeira(w: Janela)
    ensures Seleciona(w).Some? ==> Dispara(Seleciona(w).value, w)
    ensures Seleciona(w).Some? ==>
              forall x :: Posicao(x) < Posicao(Seleciona(w).value) ==> !Dispara(x, w)
    ensures Seleciona(w).None? <==> forall x :: !Dispara(x, w)
  {
    var k := PrimeiraQueDispara(Ordem, w);
    PrimeiraQueDisparaCorreta(Ordem, w);
    if k < |Ordem| {
      OrdemSemRepeticao(k);
    }
    forall x | Posicao(x) < k
      ensures !Dispara(x, w)
    {
      assert Ordem[Posicao(x)] == x;
    }
  }

  /** The case number the selected rule assigns; it stays 0 exactly when no
      rule was selected, and no rule assigns a number above 9. */
  function CasoDe(r: Option<Regra>): (caso: nat)
    ensures caso == 0 <==> r.None?
    ensures caso <= 9
  {
    match r
    case None => 0
    case Some(x) =>
      match x
      case R5 => 1   case R3 => 2   case R1 => 1   case R2 => 5   case R4 => 2
      case R6 => 3   case R7 => 3   case R8B => 9  case R8 => 8   case R9 => 7
      case R10 => 7  case R16 => 1  case R17 => 3  case R11 => 4  case R12 => 4
      case R13 => 3  case R20 => 3  case R14 => 4  case R15 => 6  case R23 => 6
      case R18 => 3  case R19 => 7  case R21 => 6  case R22 => 3
  }

  /** What a case does: close the syllable after 1, 2 or 3 graphemes from the
      cursor, or take the rest of the word into it (case 6 and every number
      without a case of its own, 0 included). */
  datatype Acao = Fecha(n: nat) | ConsomeResto

  /** Cases 1, 3 and 8 take one grapheme, 2, 4 and 9 two, 5 and 7 three; case
      6, the case 0 of no rule and any other number take the rest. */
  function AcaoDoCaso(caso: nat): (a: Acao)
    ensures a.Fecha? ==> 1 <= a.n <= 3
    ensures a == ConsomeResto <==> caso == 0 || caso == 6 || caso > 9
  {
    if caso in {1, 3, 8} then Fecha(1)
    else if caso in {2, 4, 9} then Fecha(2)
    else if caso in {5, 7} then Fecha(3)
    else ConsomeResto
  }

  /** What the rule battery does at the window. */
  function AcaoEm(w: Janela): (a: Acao)
  {
    AcaoDoCaso(CasoDe(Seleciona(w)))
  }

  /** A case that takes 2 or 3 graphemes only fires when those graphemes are
      present in the window. */
  lemma GrafemasConsumidosExistem(w: Janela)
    ensures AcaoEm(w).Fecha? ==> 1 <= AcaoEm(w).n <= 3
    ensures AcaoEm(w).Fecha? && AcaoEm(w).n >= 2 ==> w.gm1 != ""
    ensures AcaoEm(w).Fecha? && AcaoEm(w).n == 3 ==> w.gm2 != ""
  {
    SelecionaPrimeira(w);
    if Seleciona(w).Some? {
      ConsumoDaRegra(Seleciona(w).value, w);
    }
  }

  /** The same for one rule that holds. */
  lemma ConsumoDaRegra(r: Regra, w: Janela)
    requires Dispara(r, w)
    ensures var a := AcaoDoCaso(CasoDe(Some(r)));
            a.Fecha? ==> 1 <= a.n <= 3 && (a.n >= 2 ==> w.gm1 != "") && (a.n == 3 ==> w.gm2 != "")
  {
  }

  /** Rules 19, 21 and 22 are never selected: whenever one of them holds, so does
      rule 18, which comes earlier. */
  lemma RegrasInalcancaveis(w: Janela)
    ensures Seleciona(w) != Some(R19)
    ensures Seleciona(w) != Some(R21)
    ensures Seleciona(w) != Some(R22)
  {
    SelecionaPrimeira(w);
    var r := Seleciona(w);
    if r.Some? && r.value in {R19, R21, R22} {
      assert Dispara(r.value, w);
      assert Dispara(R18, w);
      assert false;
    }
  }

  /** Rule 13 needs a glide just before the vowel while the syllable is open,
      and rule 11 admits one as an alternative. In an open syllable the grapheme
      before the vowel is a pending consonant, so there rule 13 never fires and
      rule 11 fires only through its consonant alternative. */
  lemma GlideAntesDaVogal(w: Janela)
    requires w.iSilaba != 0 ==> !Vogal(w.ga1)
    ensures !Dispara(R13, w) && Seleciona(w) != Some(R13)
    ensures Dispara(R11, w) ==> Consoante(w.ga1, w.gm0)
  {
    assert !Dispara(R13, w) by {
      if w.iSilaba != 0 {
        assert !Glide(w.ga1);
      }
    }
    assert Dispara(R11, w) ==> Consoante(w.ga1, w.gm0) by {
      if w.iSilaba != 0 {
        assert !Glide(w.ga1);
      }
    }
    assert Seleciona(w) != Some(R13) by {
      SelecionaPrimeira(w);
    }
  }

  /** Every rule needs a grapheme after the vowel or the one after that, so
      none fires when the vowel ends the word: the syllable takes the rest. */
  lemma NadaDepois(w: Janela)
    requires w.gm1 == "" && w.gm2 == ""
    ensures Seleciona(w) == None && AcaoEm(w) == ConsomeResto
  {
    assert !Vogal(w.gm1) && !Glide(w.gm1) && !ConsoanteNasal(w.gm1) && !ConsoanteLiquida(w.gm1);
    assert !Consoante(w.gm1, w.gm2) && !ConsoanteOclusiva(w.gm1, w.gm2) && !ConsoanteFricativa(w.gm1, w.gm2);
    forall x
      ensures !Dispara(x, w)
    {
    }
    SelecionaPrimeira(w);
  }
}
