/** Character classifiers of the syllabifier.
    Every argument is a grapheme (one or two characters) or the empty string "",
    which marks a position outside the word ("absent"). The predicates are plain
    membership tests; the fricative and occlusive tests also look at a second,
    context grapheme `c2`. */
module Classificadores {

  /** `c1` is one character long and that character is in `cs`. The source's
      lists of one-letter strings are written here as sets of characters. */
  predicate Letra(c1: string, cs: set<char>)
  {
    |c1| == 1 && c1[0] in cs
  }

  /** `c1` is the two-character grapheme `a` `b`. */
  predicate Par(c1: string, a: char, b: char)
  {
    |c1| == 2 && c1[0] == a && c1[1] == b
  }

  /** The 16 vowel letters. */
  const Vogais: set<char> :=
    {'a', 'e', 'o', 'i', 'u', 'á', 'é', 'ó', 'ú', 'í', 'ã', 'õ', 'â', 'ê', 'ô', 'à'}

  /** The plain consonant letters. */
  const Consoantes: set<char> :=
    {'b', 'c', 'd', 'f', 'g', 'h', 'j', 'k', 'l', 'm',
     'n', 'p', 'q', 'r', 's', 't', 'v', 'w', 'x', 'z'}

  /** A blank or the absent marker. */
  predicate Espaco(c1: string)
    ensures Espaco(c1) ==> !Vogal(c1) && forall c2 :: !Consoante(c1, c2)
  {
    Letra(c1, {' '}) || c1 == ""
  }

  /** Vowels are single characters, so the absent marker is never a vowel. */
  predicate Vogal(c1: string)
    ensures Vogal(c1) ==> |c1| == 1
  {
    Letra(c1, Vogais)
  }

  /** The semivowels "i" and "u"; each of them is also a vowel. */
  predicate Glide(c1: string)
    ensures Glide(c1) ==> Vogal(c1)
  {
    Letra(c1, {'i', 'u'})
  }

  predicate ConsoanteNasal(c1: string)
    ensures ConsoanteNasal(c1) ==> c1 != "" && !Vogal(c1)
  {
    Letra(c1, {'m', 'n'})
  }

  predicate ConsoanteLiquida(c1: string)
    ensures ConsoanteLiquida(c1) ==> c1 != "" && !Vogal(c1)
  {
    Letra(c1, {'l', 'r'}) || Par(c1, 'r', 'r')
  }

  /** "c" and "g" are fricative exactly when the context grapheme is "e" or "i". */
  predicate ConsoanteFricativa(c1: string, c2: string)
    ensures ConsoanteFricativa(c1, c2) ==> c1 != "" && !Vogal(c1)
    ensures Letra(c1, {'c', 'g'}) ==> (ConsoanteFricativa(c1, c2) <==> Letra(c2, {'e', 'i'}))
  {
    if Letra(c1, {'f', 'v', 's', 'ç', 'z', 'j', 'x'}) then true
    else if Par(c1, 's', 's') || Par(c1, 'c', 'h') then true
    else if c2 != "" && Letra(c1, {'c', 'g'}) && Letra(c2, {'e', 'i'}) then true
    else false
  }

  /** "c" and "g" are occlusive exactly before "a", "o" or "u"; the graphemes
      "qu" and "gu" exactly before "e" or "i". */
  predicate ConsoanteOclusiva(c1: string, c2: string)
    ensures ConsoanteOclusiva(c1, c2) ==> c1 != "" && !Vogal(c1)
    ensures Letra(c1, {'c', 'g'}) ==> (ConsoanteOclusiva(c1, c2) <==> Letra(c2, {'a', 'o', 'u'}))
    ensures Par(c1, 'q', 'u') || Par(c1, 'g', 'u') ==>
              (ConsoanteOclusiva(c1, c2) <==> Letra(c2, {'e', 'i'}))
  {
    if Letra(c1, {'p', 't', 'b', 'd'}) then true
    else if c2 != "" && Letra(c1, {'c', 'g'}) && Letra(c2, {'a', 'o', 'u'}) then true
    else if c2 != "" && (Par(c1, 'q', 'u') || Par(c1, 'g', 'u')) && Letra(c2, {'e', 'i'}) then true
    else false
  }

  /** Every specialised consonant class is a consonant, and no vowel and no
      absent marker is one. */
  predicate Consoante(c1: string, c2: string)
    ensures (ConsoanteOclusiva(c1, c2) || ConsoanteFricativa(c1, c2)
             || ConsoanteLiquida(c1) || ConsoanteNasal(c1)) ==> Consoante(c1, c2)
    ensures Consoante(c1, c2) ==> c1 != "" && !Vogal(c1)
  {
    if Letra(c1, Consoantes) then true
    else if Par(c1, 'l', 'h') || Par(c1, 'n', 'h') then true
    else ConsoanteOclusiva(c1, c2) || ConsoanteFricativa(c1, c2)
         || ConsoanteLiquida(c1) || ConsoanteNasal(c1)
  }
}
