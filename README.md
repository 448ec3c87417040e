# Portuguese syllabifier: the `Palavra` object

This project models the `Palavra` class of `silaba.py`, a rule-based
syllabifier for Portuguese words. A `Palavra` holds three things: the
normalised word `p`, its graphemes and its syllables. `set_palavra` stores
the word, then cuts it into graphemes and then into syllables. Three queries
read the result: the number of syllables, the word type by syllable count
and the n-th syllable counted from the end.

The model has five modules:

- `Classificadores` holds the letter classifiers: vowel, glide, nasal,
  liquid, fricative, occlusive, consonant and space. Some of them look at
  the next grapheme as well as the current one.
- `Grafemas` holds the grapheme scan. `Segmentar` is the pure reference
  definition of the scan. Lemmas show that it loses nothing, that its
  two-character graphemes are exactly the allowed ones, and that it never
  leaves a digraph split.
- `Regras` holds the rule battery of `silabear`:
  - the window of graphemes around the cursor (`ga2`, `ga1`, `gm0` … `gm4`,
    `i_silaba`);
  - the 24 rules as a datatype, with the condition of each rule as
    `Dispara`;
  - the selection of the first rule that fires, in source order;
  - the rule-to-case table and the case-to-action table. The action is
    "close after 1, 2 or 3 graphemes" or "take the rest of the word".
- `Silabacao` holds the pure reference definition `Silabar` of the whole
  syllabification. It is a recursion over the grapheme cursor.
  - Its partner lemmas show that the syllables concatenate back to the word
    and are never empty.
  - Each vowel the scan decides at gives one syllable, which contains that
    vowel. The only other syllable is the final flush of trailing
    consonants, so only the last syllable can be vowel-free.
  - During a scan the grapheme before the vowel of an open syllable is not
    a vowel, so rule 13 never fires.
  - A word with no vowel is a single syllable.
- `Silaba` holds the `Palavra` class itself. Its fields are `p`, `grafemas`
  and `silabas`. `SetPalavra` and `Silabear` change those fields in place:
  - `SepararGrafemas` is a loop that returns the graphemes of `p`, proved
    equal to `Segmentar`; `SetPalavra` stores its result;
  - `Silabear` is the main loop, proved equal to `Silabar`;
  - the queries are functions over the fields.

`Exemplos` works two words through the model. "casa" gives ca-sa (rule 6,
then the end of the word). "pedra" gives pe-dra (rule 20 keeps "dr"
together).

The vowel set of `vogal` (silaba.py:26-27) has 16 members: a e i o u á é
í ó ú ã õ â ê ô à. The case each rule
assigns fixes how many graphemes close the syllable, for example
(silaba.py:154-214):

- rule 1 (vowel then vowel) closes after one grapheme (case 1);
- rule 5 (vowel, then a consonant, then a vowel or a liquid) closes after
  one grapheme (case 1);
- rule 8B closes after two graphemes (case 9).

## Model

| member | source | states |
|---|---|---|
| Classificadores.Espaco | silaba.py:23-24 | a space is neither a vowel nor the start of a consonant, whatever grapheme follows |
| Classificadores.Vogal | silaba.py:26-27 | every vowel is a single character |
| Classificadores.Glide | silaba.py:29-30 | the glides "i" and "u" are also vowels, so a glide can head a rule window |
| Classificadores.ConsoanteNasal | silaba.py:32-33 | a nasal consonant is a non-empty grapheme that is not a vowel |
| Classificadores.ConsoanteLiquida | silaba.py:35-36 | a liquid consonant is a non-empty grapheme that is not a vowel |
| Classificadores.ConsoanteFricativa | silaba.py:38-53 | a fricative is never a vowel; "c"/"g" is fricative exactly when the next grapheme is "e" or "i" |
| Classificadores.ConsoanteOclusiva | silaba.py:55-69 | an occlusive is never a vowel; "c"/"g" is occlusive exactly when followed by "a"/"o"/"u"; "qu"/"gu" exactly when followed by "e"/"i" |
| Classificadores.Consoante | silaba.py:71-82 | each of the four specialised classes implies consonant, and a consonant is a non-empty non-vowel |
| Grafemas.Primeiro | silaba.py:112-123 | the grapheme the scan takes next is a prefix of the rest of the word, of one or two characters |
| Grafemas.Segmentar | silaba.py:103-125 | the graphemes concatenate back to the word, each has one or two characters, and there are no more graphemes than characters |
| Grafemas.SegmentarPasso | silaba.py:108-123 | step equation of the scan: the next grapheme is a digraph "nh"/"lh"/"ch", or "qu"/"gu" before "e"/"i", or else one character; the scan resumes right after it |
| Grafemas.GrafemasDuplos | silaba.py:103-125 | every two-character grapheme is "nh", "lh" or "ch", or is "qu"/"gu" followed by a grapheme "e" or "i" |
| Grafemas.GrafemasMaximais | silaba.py:103-125 | no one-character grapheme is the first half of a digraph, or of a "qu"/"gu" followed by "e"/"i", that the scan left split |
| Grafemas.MaximalInicio | silaba.py:112-123 | the first grapheme of a non-empty word is already maximal |
| Regras.JanelaExplicita | silaba.py:137-143 | step equation of the window: the window `JanelaEm` (slots read through `Em`) at cursor `i` holds `g[i-2]`, `g[i-1]`, `g[i]` … `g[i+4]`, with "" beyond either end, and the current syllable's grapheme count |
| Regras.Dispara | silaba.py:154-343 | a rule fires only when `gm0` is a vowel; rules 5, 3, 1, 2 and 4 fire only at `i_silaba == 0`, all the others only at `i_silaba != 0` |
| Regras.Posicao | silaba.py:154-343 | every rule has a place in the source-ordered battery |
| Regras.OrdemSemRepeticao | silaba.py:154-343 | no rule appears twice in the battery |
| Regras.PrimeiraQueDisparaCorreta | silaba.py:154-343 | the first-match search `PrimeiraQueDispara` returns a rule that fires, and no earlier rule fires |
| Regras.SelecionaPrimeira | silaba.py:154-343 | the rule `Seleciona` picks fires, and no rule earlier in source order fires (the `caso == 0` guards); nothing is selected exactly when no rule fires |
| Regras.CasoDe | silaba.py:154-343 | the case number stays 0 exactly when no rule was selected, and no rule assigns a case above 9 |
| Regras.AcaoDoCaso | silaba.py:346-412 | a closing case takes 1 to 3 graphemes; case 6, case 0 (no rule) and any number above 9 take the rest of the word |
| Regras.ConsumoDaRegra | silaba.py:346-397 | whatever rule fires, its case closes after 1 to 3 graphemes, and every grapheme it consumes exists |
| Regras.GrafemasConsumidosExistem | silaba.py:346-397 | cases 2, 4 and 9 are chosen only when `gm1` exists, and cases 5 and 7 only when `gm1` and `gm2` exist, so `i += 2` or `i += 3` never passes the end |
| Regras.RegrasInalcancaveis | silaba.py:313-343 | rules 19, 21 and 22 are never selected: an earlier rule always fires first |
| Regras.GlideAntesDaVogal | silaba.py:256-278 | when the grapheme before the vowel of an open syllable is not a vowel, rule 13 does not fire and is not selected, and rule 11 fires only through `consoante(ga1, gm0)` |
| Regras.NadaDepois | silaba.py:154-343 | at a vowel with nothing after it no rule fires, and the default case takes the rest of the word |
| Silabacao.AcaoEmAdmissivel | silaba.py:346-412 | the battery's decision `AcaoEm` closes after 1 to 3 graphemes, all inside the word |
| Silabacao.FechaDentroDaPalavra | silaba.py:346-397 | closing after `n` graphemes stays in the word and appends exactly `g[i..i+n]` |
| Silabacao.VarreConsoante | silaba.py:148-152 | step equation: a non-vowel grapheme joins the open syllable and the scan moves on one grapheme |
| Silabacao.VarreFecha | silaba.py:346-397 | step equation: a closing case emits the open syllable plus the consumed graphemes, then starts a fresh syllable |
| Silabacao.VarreResto | silaba.py:377-385 | step equation: case 6 and the default case emit the open syllable plus the whole rest of the word as the final syllable |
| Silabacao.VarreFim | silaba.py:413-414 | step equation: at the end of the word a non-empty open syllable is flushed, and nothing else is emitted |
| Silabacao.VarreSemPerda | silaba.py:136-414 | `Varre`, the loop as a recursion on the cursor: from any cursor, the emitted syllables are non-empty, there are no more of them than graphemes left, and they concatenate to the open syllable plus the rest of the word |
| Silabacao.SilabarSemPerda | silaba.py:127-415 | `Silabar`, the syllables `silabear` leaves: they concatenate back to the word, none is empty, there are no more syllables than graphemes, and there are none exactly when the word is empty |
| Silabacao.VarreTemVogal | silaba.py:136-414 | from any cursor, every emitted syllable except possibly the last contains a vowel |
| Silabacao.SilabasTemVogal | silaba.py:346-414 | every syllable of a word except possibly the last contains a vowel |
| Silabacao.VarreUltimaComVogal | silaba.py:136-414 | when the last grapheme is a vowel and something is left to scan, every emitted syllable contains a vowel: no flush happens |
| Silabacao.SilabasComVogal | silaba.py:346-414 | a word whose last grapheme is a vowel has a vowel in every syllable |
| Silabacao.VarreNasJanelas | silaba.py:136-414 | from any cursor, the first syllables, one per window `Janelas` lists, each contain a vowel, and at most one syllable follows them |
| Silabacao.SilabasNasJanelas | silaba.py:346-414 | a word has one syllable with a vowel per window the syllabifier decides at, and at most one more after them: the flush of silaba.py:413-414, the only syllable that can be vowel-free |
| Silabacao.VarreSoConsulta | silaba.py:136-412 | the scan reads its decision only at the windows `Janelas` lists: two decisions that agree there give the same syllables |
| Silabacao.ConsoanteAntes | silaba.py:137-152 | in every window the scan decides at with `i_silaba != 0`, the grapheme `ga1` before the vowel is not a vowel |
| Silabacao.Regra13NuncaDispara | silaba.py:256-278 | in no window that the syllabifier decides at for any word does rule 13 fire or get selected; rule 11 fires there only through `consoante(ga1, gm0)` |
| Silabacao.VarreSemVogal | silaba.py:148-152 | with no vowel left, the scan only collects and flushes one syllable |
| Silabacao.PalavraSemVogal | silaba.py:413-414 | a non-empty word without a vowel is a single syllable, the whole word |
| Silaba.Tipo | silaba.py:87-96 | "Monossílaba", "Bisílaba", "Trissílaba" exactly for 1, 2, 3 syllables, "Polissílaba" exactly for 0 or more than 3 |
| Silaba.SilabaDoFimAcrescenta | silaba.py:98-101 | after a syllable is appended, it is the first from the end, each earlier syllable moves one place further, and indices beyond the new count give "" |
| Silaba.Palavra.constructor | silaba.py:13-16 | a new object holds the empty word with no graphemes and no syllables, and is consistent |
| Silaba.Palavra.SetPalavra | silaba.py:18-21 | stores the word and leaves graphemes and syllables consistent with it; both concatenate back to the word, no syllable is empty, and #syllables ≤ #graphemes ≤ #characters |
| Silaba.Palavra.QuantidadeDeSilabas | silaba.py:84-85 | on a consistent object the count is zero exactly for the empty word, and bounded by the grapheme and character counts |
| Silaba.Palavra.TipoDePalavra | silaba.py:87-96 | the type follows the syllable count in both directions; the empty word is classed "Polissílaba" |
| Silaba.Palavra.Silaba | silaba.py:98-101 | through `SilabaDoFim`, an index in range gives the syllable counted from the end; on a consistent object the result is non-empty exactly for such indices, and the word is the syllables before it, it, and those after it |
| Silaba.Palavra.SepararGrafemas | silaba.py:103-125 | the loop returns exactly `Segmentar(p)` |
| Silaba.Palavra.Silabear | silaba.py:127-415 | returns false exactly when there are no graphemes, and leaves the syllables equal to `Silabar(grafemas)`; its loop keeps the pending graphemes non-vowels, with a non-vowel just before the cursor while a syllable is open |
| Silaba.FechaNaVogal | silaba.py:137-412 | one pass at a vowel: for a closing case the cursor advances by the case's count and the syllable gets exactly the consumed graphemes; otherwise the cursor reaches the end and the syllable gets the rest of the word |
| Silaba.CasoNaVogal | silaba.py:154-343 | the case the rule battery assigns maps to the action of the selected rule, and its consumed graphemes exist |
| Silaba.JuntaResto | silaba.py:377-385 | the inner loop appends every remaining grapheme to the open syllable |
| Exemplos.SegmentarSimples | silaba.py:103-125 | a word in which no "n", "l", "c", "q" or "g" is followed by "h" or "u" splits into its characters |
| Exemplos.GrafemasDeCasa | silaba.py:103-125 | "casa" gives the graphemes c, a, s, a |
| Exemplos.Regra6EmCasa | silaba.py:191-196 | rule 6 is the rule selected at the vowel of "ca", and it closes the syllable after it |
| Exemplos.FimDaPalavra | silaba.py:404-412 | a vowel at the end of the word takes the rest |
| Exemplos.SilabasDeCasa | silaba.py:127-415 | "casa" is syllabified as ca-sa |
| Exemplos.GrafemasDePedra | silaba.py:103-125 | "pedra" gives the graphemes p, e, d, r, a |
| Exemplos.Regra20EmPedra | silaba.py:280-286 | rule 20 is the rule selected at the vowel of "pe", and it closes the syllable before the cluster "dr" |
| Exemplos.SilabasDePedra | silaba.py:127-415 | "pedra" is syllabified as pe-dra, and its last syllable is "dra" |

## Left out

- Silaba.Palavra.SetPalavra: does not model `strip().lower()` (silaba.py:19), because Python's whitespace stripping and Unicode case mapping have no counterpart here. It takes the already-normalised word.
- `main` (silaba.py:417-432) reads a file and prints its results. File I/O and printing are not modelled.
- The debug `print` of the rule number (silaba.py:345) is not modelled. Neither is the `regra` variable, which only that print reads.
- The rule battery is modelled as "the first rule in source order whose condition holds". The code instead runs 24 `if`s in a row, each guarded by `caso == 0`; the two give the same case.
- Case 6 and the default case (silaba.py:377-385, 404-412) are one action, "take the rest of the word". They do the same thing; the `continue` after the default case has no effect, because the loop has ended.
- The object's consistency is stated through the model's own `Silabar` and `Segmentar`. Nothing says the syllables are linguistically right Portuguese syllables.
- `espaco` also accepts Python's `None` (silaba.py:24). Graphemes here are strings, and an absent grapheme is always "", so `None` has no counterpart.
