# FUNCTION_VERSION item of the HEXplorer A2L parser, in Dafny

HEXplorer's ASAP2 (A2L) parser builds one item object per grammar production
it recognises. `FUNCTION_VERSION` is a leaf item with a fixed parameter list.
Its constructor takes the list of parameter names (`namePar`) and expected
token kinds (`typePar`) from the grammar table's `function_version` entry.
It then calls `parseFixPar`, which asks the lexer for one token per expected
kind. A token of the expected kind has its lexeme appended to `parameters`.
Any other token raises an "expected token / find token" diagnostic, adds no
value, and parsing goes on with the next position. Afterwards `getParameters`
zips `namePar` with `parameters` into a map, and `getPar` returns the value
at the first index of a name in `namePar`.

The model has three modules:

- `Lexing` (`lexer.dfy`): token kinds, tokens, and a `Lexer` class. The class
  holds the scanned token sequence, a cursor `pos` and the current lexeme.
  `NextToken` advances the cursor.
- `ParseSpec` (`fix_par.dfy`): `Parse`, the pure specification of what
  `parseFixPar` produces from the consumed tokens, and lemmas about it.
- `Items` (`function_version.dfy`): the grammar entry, the
  `FunctionVersion` class, `IndexOf`, `ParameterMap` (the specification of
  `getParameters`) and their lemmas. It also has two client methods:
  `ExampleWellFormed` reads one `VERSION_IDENTIFIER` string, and
  `ExampleMismatchShifts` shows a wrong first token.

What the source does, as proved here:

- A mismatch drops its position. With as many names as expected kinds, a
  diagnostic is shown exactly when `parameters` ends up shorter than
  `namePar` (`MismatchShortensParameters`, and the constructor's contract).
  That is exactly the case where `getParameters` would read past the end of
  `parameters`.
- After a mismatch the values no longer line up with the names, so `getPar`
  can return the value of a different position (`ParseFirstMismatchShifts`,
  `ExampleMismatchShifts`).

Both accessors keep the source's unchecked preconditions:

- An unknown name is not checked: `indexOf` returns -1 and `at(-1)` is out
  of range. The model keeps this as a precondition of `GetPar`.
- `at(i)` past the end of `parameters` is out of range. The model keeps this
  as the precondition `|parameters| >= |namePar|` of `GetParameters`.
- A repeated name keeps the value of its last occurrence in the map, and
  values line up with names only when no mismatch happened.

## Model

| member | source | states |
|---|---|---|
| Lexing.Lexer.NextToken | src/ASAP2/Items/function_version.cpp:53 | each call hands out the token at the cursor (Eof past the end), makes its text the current lexeme, and advances the cursor by exactly one |
| Items.FunctionVersion.constructor | src/ASAP2/Items/function_version.cpp:27-37 | given a grammar entry with as many names as kinds: namePar and typePar are the grammar's function_version lists; the lexer advances by exactly \|typePar\| and its current lexeme is that of the last token consumed; parameters and errors are the outcome of parsing the consumed tokens against typePar; a diagnostic was shown iff \|parameters\| < \|namePar\|; the name is "FUNCTION_VERSION" |
| Items.FunctionVersion.ParseFixPar | src/ASAP2/Items/function_version.cpp:47-67 | consumes exactly \|typePar\| tokens whatever matches, leaving the last one's lexeme current; parameters and errors grow by exactly Parse of the consumed tokens, a lexeme per match and a mismatch record per non-match; the name is unchanged |
| ParseSpec.ParseMessage | src/ASAP2/Items/function_version.cpp:62-64 | the diagnostic recorded for a mismatching position i reads "expected token : " with the name of typePar[i], then "\nfind token : " with the name of the kind read |
| Items.MismatchShortensParameters | src/ASAP2/Items/function_version.cpp:51-77 | with as many names as expected kinds, a diagnostic was recorded iff fewer values than names were stored, i.e. iff getParameters' loop would index past the stored values |
| ParseSpec.ParseLengths | src/ASAP2/Items/function_version.cpp:51-66 | the number of stored values is the number of matching positions, and stored values plus diagnostics equal \|typePar\| |
| ParseSpec.ParseAligned | src/ASAP2/Items/function_version.cpp:51-65 | a matching position i stores its lexeme at the index given by the matches before it (in-order subsequence); a mismatching one records (typePar[i], found kind) at the index given by the mismatches before it; later positions are still processed |
| ParseSpec.ParseAllMatch | src/ASAP2/Items/function_version.cpp:51-58 | all tokens match iff \|parameters\| == \|typePar\| iff no diagnostic; then parameters are exactly the consumed lexemes in order |
| ParseSpec.ParseFirstMismatchShifts | src/ASAP2/Items/function_version.cpp:51-65 | if only the first token mismatches, parameters are the lexemes of positions 1.. (index j holds position j+1's value) and exactly one diagnostic is recorded |
| Items.IndexOf | src/ASAP2/Items/function_version.cpp:81 | returns -1 exactly when the name is absent, otherwise the first index carrying it |
| Items.FunctionVersion.GetParameters | src/ASAP2/Items/function_version.cpp:69-77 | needs \|parameters\| >= \|namePar\|; the key set is exactly the names; a name maps to parameters at its last index; nothing is modified |
| Items.ParameterMapKeys | src/ASAP2/Items/function_version.cpp:71-76 | the keys of the inserted-in-order map are exactly the names |
| Items.ParameterMapLast | src/ASAP2/Items/function_version.cpp:72-75 | a later insert overwrites: a name maps to the value at its last index |
| Items.FunctionVersion.GetPar | src/ASAP2/Items/function_version.cpp:79-83 | needs the name present and its first index below \|parameters\|; returns parameters at the first index of the name; reads state only |
| Items.GetParAgreesWithMap | src/ASAP2/Items/function_version.cpp:69-83 | with distinct names and a full parameter list, getPar(name) equals getParameters()[name] |

## Left out

- The modal error dialog (`QMessageBox` via `showError`) is not modelled. A diagnostic is a `Mismatch(expected, found)` record appended to the item's `errors`. `Message` gives its text, with the lexer's kind names from `KindName`.
- The item's own `nextToken` (inherited, its body is not part of this model) is taken to be one lexer step. The given token sequence stands for what that method returns, so any skipping of comments it does is already reflected in the sequence.
- The grammar table is assumed to give `function_version` as many names as kinds; the constructor requires it.
- The lexer's scanner is not modelled. Its output is a given token sequence, and past its end the lexer hands out `Eof` tokens with an empty lexeme. The token-kind enumeration is a representative subset, because the lexer's header is not part of this model.
- The construction of the `A2lGrammar` table is not modelled. The grammar is an input value holding the `function_version` entry.
- The parent `Node` is not modelled. The item receives the parent's lexer directly.
- The static `Factory` registration is not modelled. It only registers the item type.
- Manual `char*` allocation, `strcpy` and the destructor's `delete[]` are not modelled. Values are immutable strings.
- QMap's key ordering is not modelled. The result is a Dafny `map`.
- Items.FunctionVersion.GetParameters, Items.FunctionVersion.GetPar: the out-of-range behaviour of Qt's `at` is not modelled. It is undefined behaviour, so it appears as a precondition rather than an error result.
