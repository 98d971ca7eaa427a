# Text normalizer `toLowerCaseWithRemovePunctuations`

The helper `toLowerCaseWithRemovePunctuations` (`src/services/ui.services.ts`)
deletes six punctuation characters from a string and lower-cases the rest. Its
intended use is case- and punctuation-insensitive comparison of phrases; no
caller that performs such a comparison is part of this model. The helper runs
two steps in one expression:

1. an inner `removeAllPunctuations` calls `text.replace(/[\.\?\!\,\:\;]/g, '')`;
2. `toLowerCase()` is applied to what is left.

This project models that helper in Dafny, in module `UiServices`
(`ui_services.dfy`). A string is a `seq<char>`. The model keeps the two steps
visible:

- `RemoveAllPunctuations` is a filter that drops the six characters
  `.` `?` `!` `,` `:` `;`;
- `ToLowerCase` is a character-wise map of `ToLowerChar`, which folds ASCII
  `A`–`Z` to `a`–`z` and leaves every other character alone;
- `Normalize(s)` is `ToLowerCase(RemoveAllPunctuations(s))`.

The helper is pure and total, so the model uses functions and lemmas only. It
has no classes and no loops. Two definitions serve as partners of `Normalize`:

- `NormalizeEach` is a character-by-character reference definition: each of
  the six characters gives the empty string, any other character gives its
  lower-case form;
- `PunctuationCount` counts the six characters through the input's multiset.

Case folding is ASCII only, one character at a time. JavaScript's
`String.prototype.toLowerCase` uses the full default Unicode case mapping.
Under it, some characters, such as U+0130, become two code units, and the
final-sigma rule lower-cases U+03A3 depending on its neighbours. So every
result below about lengths, output positions, concatenation, the order of the
two steps, or which strings are left unchanged holds only under ASCII folding.
The rows that depend on it say "Under ASCII folding".

## Model

| member | source | states |
|---|---|---|
| UiServices.ToLowerChar | src/services/ui.services.ts:20 | The result is never an upper-case ASCII letter. An upper-case letter goes to the lower-case letter at the same alphabet position. Every other character is unchanged. Lower-casing neither creates nor removes one of the six characters. |
| UiServices.RemoveAllPunctuations | src/services/ui.services.ts:16-18 | The result is no longer than the input and contains none of the six characters, at any position. |
| UiServices.Normalize | src/services/ui.services.ts:15-21 | The helper's result contains none of the six characters and no upper-case ASCII letter. Under ASCII folding, it is never longer than its input. |
| UiServices.ToLowerCase | src/services/ui.services.ts:20 | The result has the input's length and contains no upper-case ASCII letter. |
| UiServices.RemoveCounts | src/services/ui.services.ts:17 | The `/g` removal is global and exact. Each of the six characters occurs zero times in the result. Every other character occurs exactly as often as in the input. |
| UiServices.RemoveMembers | src/services/ui.services.ts:17 | A character is in the stripped string if and only if it is in the input and is not one of the six. |
| UiServices.RemoveDistributes | src/services/ui.services.ts:17 | Stripping a concatenation equals concatenating the stripped parts. |
| UiServices.LowerDistributes | src/services/ui.services.ts:20 | Under ASCII folding, lower-casing a concatenation equals concatenating the lower-cased parts. |
| UiServices.NoPunctuationInOutput | src/services/ui.services.ts:15-21 | No position of the normalized string holds one of the six characters, and none of them is a member of it. |
| UiServices.NoUpperInOutput | src/services/ui.services.ts:20 | No position of the normalized string holds an upper-case ASCII letter, and lower-casing it again changes nothing. |
| UiServices.OutputIsNormalized | src/services/ui.services.ts:15-21 | Every output satisfies `IsNormalized`: it has no punctuation of the six and no upper-case letter. |
| UiServices.NormalizeDistributes | src/services/ui.services.ts:15-21 | Under ASCII folding, normalizing a concatenation equals concatenating the normalized parts. No character is moved across the seam. |
| UiServices.NormalizeIsCharwise | src/services/ui.services.ts:16-20 | Under ASCII folding, `Normalize` equals the character-by-character reference `NormalizeEach` on every input. Each of the six characters is deleted. Every other character is kept, lower-cased, in its original order. |
| UiServices.KeptCharacterAtRank | src/services/ui.services.ts:16-20 | Under ASCII folding, a non-punctuation input character at index `i` appears, lower-cased, at output position `Rank(s, i)`. That position is the length of the normalized prefix before it. |
| UiServices.RankOrdered | src/services/ui.services.ts:16-20 | Under ASCII folding, if `i < j` and the character at `i` is kept, then `Rank(s, i) < Rank(s, j)`. So kept characters keep their relative order. |
| UiServices.DroppedCharacterHasNoRank | src/services/ui.services.ts:17 | A removed character takes no output position: the rank after it equals the rank before it. |
| UiServices.OutputCharacters | src/services/ui.services.ts:15-21 | Under ASCII folding, a character is in the output if and only if some non-punctuation input character lower-cases to it. Both directions are proved. |
| UiServices.NormalizedIsFixed | src/services/ui.services.ts:15-21 | Under ASCII folding, a string with no punctuation of the six and no upper-case letter normalizes to itself. |
| UiServices.FixedPoints | src/services/ui.services.ts:15-21 | Under ASCII folding, `Normalize(t) == t` holds if and only if `t` is normalized. |
| UiServices.Idempotent | src/services/ui.services.ts:15-21 | Normalizing twice gives the same result as normalizing once. |
| UiServices.EmptyOutput | src/services/ui.services.ts:17-20 | The empty string normalizes to the empty string. A string made only of the six characters also normalizes to the empty string. |
| UiServices.OutputLength | src/services/ui.services.ts:17-20 | Under ASCII folding, output length equals input length minus the number of occurrences of the six characters. So the output is never longer than the input. |
| UiServices.StepsCommute | src/services/ui.services.ts:17-20 | Under ASCII folding, lower-casing first and stripping second gives the same string as the source's order: strip, then lower-case. |
| UiServices.HelloWorld | src/services/ui.services.ts:15-21 | `"Hello, World!"` normalizes to `"hello world"`. |

## Left out

- `showDialog` (`src/services/ui.services.ts:3-13`) is a promise bridge over the external Quasar `Dialog.create` and its `onOk`/`onCancel` callbacks. Its behaviour belongs to a UI library whose code is not part of this model.
- `useVModel` (`src/services/vue.services.ts:3-15`) is a thin wrapper over Vue's `computed`. Its semantics live in the Vue reactivity runtime, which is not part of this model.
- `supportedRecorder` (`src/models/record.models.ts:3-4`) is a feature check on the browser's global `window`. It is environment input, not logic.
- `RecordAction` (`src/models/record.models.ts:1`) is a two-value type alias with no behaviour.
- ToLowerChar: models ASCII `A`–`Z` only. `String.prototype.toLowerCase` applies the full, locale-insensitive default Unicode case mapping. That mapping lower-cases non-ASCII letters too, has one-to-many expansions (U+0130 becomes two code units), and applies the context-sensitive final-sigma rule to U+03A3. None of these is modelled. Under the full mapping, the following would not hold:
  - `OutputLength` and the length clauses of `ToLowerCase` and `Normalize`, because one-to-many expansions lengthen the output;
  - `KeptCharacterAtRank` and `RankOrdered`, because expansions shift output positions;
  - `LowerDistributes`, `NormalizeDistributes`, `NormalizeIsCharwise`, `OutputCharacters` and `StepsCommute`, because final sigma depends on context. For `"ΑΣ!Β"`, stripping first gives `"ασβ"`, while lower-casing first gives `"αςβ"`;
  - `NormalizedIsFixed` and `FixedPoints`, because `IsNormalized` rules out only ASCII upper-case letters.
- Strings are sequences of Dafny `char` values (Unicode scalar values). JavaScript strings are UTF-16 code-unit sequences. The six removed characters and the ASCII letters are single code units in both, so the removal step is the same. Lone surrogates are not modelled.
- The JavaScript regular-expression engine is not modelled. The character class `[\.\?\!\,\:\;]` is a plain membership test, `IsPunctuation`.
