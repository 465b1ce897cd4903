# Password composition of PasswordGeneratorV2, in Dafny

PasswordGeneratorV2 is a desktop password generator and vault. The form takes
a length, three check boxes (digits, letters, symbols) and, optionally, a
count for each class. The generator checks the form, decides how many
characters each class contributes, draws them and shuffles them. This project
models that routine, `password_generator.py`, and proves what it does.

- `wrappers.dfy` (`Wrappers`): `Option` for empty fields, `Result` for the early-return checks.
- `char_classes.dfy` (`CharClasses`): the classes numbers, letters and symbols, in the
  source's dictionary order. `PerClass<T>` holds one value per class. It stands for the source's two
  dictionaries keyed "numbers", "letters", "symbols" (`specified_counts` and `used_types`),
  and for the three optional count arguments of `generate_password_with_counts`. It also defines the alphabets `string.digits` (10),
  `string.ascii_letters` (52) and `string.punctuation` (32). These are built from ASCII ranges
  and proved equal to the literal strings. `ClassCount` counts a string's characters by class.
- `composition.dfy` (`Composition`): the allocation as pure reference definitions. It covers
  absent counts becoming 0, the sum of all counts, the unspecified classes, each one's share
  of the remaining length, and the final per-class counts (`Allocation`). The lemmas here
  state what the allocation guarantees.
- `password_generator.dfy` (`PasswordGenerator`): the routine as the source runs it.
  `CheckRequest` is the validation of `generate_password`. `Distribute` is the loop that
  overwrites dictionary entries. `Draw` and `Collect` build the character list. `Shuffle` is
  an in-place Fisher–Yates shuffle on an array. `GeneratePasswordWithCounts` and
  `GeneratePassword` are the two entry points.

Random choices are arbitrary choices (`:|`). A drawn character is some element of its
alphabet, and the shuffle swaps each position with some earlier-or-equal one. So the
contracts hold for every possible random outcome.

The source returns `""` after a message box. The model returns
`Rejected(InvalidLength | NoCharacterClass | CountsExceedLength)` instead, and
`Outcome.Text()` gives back the `""`. A successful run can also produce `""`, for example
when the only enabled class gets 0 characters.

Quirks of `password_generator.py`, reproduced as written:
- The sum checked against the length includes counts typed for disabled classes
  (`password_generator.py:59`). Those counts use up length but draw nothing.
- An explicit count of 0 is treated like an empty field: the class receives a share.
- When every enabled class has a nonzero count and length is left over, the leftover is
  dropped. When no count is negative and no disabled class has a count, the password is then
  shorter than requested by exactly the leftover (`LeftoverDropped`); with a negative count it
  can still come out longer (see the next item).
- Negative counts are accepted. `range(n)` with a negative `n` draws nothing (`Clamp`). A
  negative count raises the remaining length, so the password can come out longer than
  requested (`NegativeCountLengthens`).

## Model

| member | source | states |
|---|---|---|
| `CharClasses.PerClass.Put` | password_generator.py:77-78 | overwriting one dictionary entry sets that class's value and leaves the other two unchanged |
| `CharClasses.AlphabetMembers` | password_generator.py:81-86 | a character is in a class's alphabet exactly when it lies in that class's ASCII ranges |
| `CharClasses.AlphabetSizes` | password_generator.py:81-86 | the alphabets have 10, 52 and 32 characters |
| `CharClasses.DigitsAsWritten` | password_generator.py:82 | the digit alphabet is "0123456789" |
| `CharClasses.AsciiLettersAsWritten` | password_generator.py:84 | the letter alphabet is a–z followed by A–Z |
| `CharClasses.PunctuationAsWritten` | password_generator.py:86 | the symbol alphabet is the 32 ASCII punctuation characters, in code-point order |
| `CharClasses.AlphabetsDisjoint` | password_generator.py:81-86 | no character belongs to two classes |
| `CharClasses.ClassCountSingleClass` | password_generator.py:81-86 | characters drawn from one alphabet count fully for that class and zero for the others |
| `CharClasses.ClassCountPermutation` | password_generator.py:89 | reordering a string keeps the number of characters of every class |
| `Composition.Explicit` | password_generator.py:46-50 | an absent count becomes 0; a given count is kept as given |
| `Composition.Unspecified` | password_generator.py:70 | it lists exactly the enabled classes whose count is 0, in the order numbers, letters, symbols |
| `Composition.AllocationShares` | password_generator.py:73-78 | the i-th unspecified class gets `remaining // k`, plus one if i < `remaining % k` |
| `Composition.AllocationKeepsCounts` | password_generator.py:70-78 | nonzero explicit counts, disabled classes' counts, and all counts when the distribution does not run, are left unchanged |
| `Composition.AllocationNonNegative` | password_generator.py:73-78 | with length left over, every share is non-negative |
| `Composition.SharesBalanced` | password_generator.py:74-78 | shares differ by at most one; the +1 shares go exactly to the first `remaining % k` unspecified classes |
| `Composition.SharesSumToRemaining` | password_generator.py:67-78 | the shares of the unspecified classes add up to exactly `length - total_specified` |
| `Composition.AllocatedTotal` | password_generator.py:59-78 | when the distribution runs, the final counts of all three classes add up to `length` |
| `Composition.ZeroCountSameAsEmpty` | password_generator.py:46-70 | an explicit 0 and an empty field give the same total and the same allocation |
| `Composition.OutputLengthAccount` | password_generator.py:59-91 | with non-negative counts, password length = length − disabled classes' counts − the dropped leftover |
| `Composition.FullLength` | password_generator.py:67-91 | the password has exactly `length` characters when counts are non-negative, no disabled class has a count, and some enabled class is unspecified or the counts fill the length |
| `Composition.LeftoverDropped` | password_generator.py:73-86 | with non-negative counts, no count on a disabled class, no unspecified class and length left over, the password is shorter than `length` by exactly the leftover |
| `Composition.NegativeCountLengthens` | password_generator.py:59-86 | length 4 with digits count −2 and letters unspecified gives 6 letters: a longer password |
| `Composition.EvenSplitExample` | password_generator.py:70-78 | length 7, all classes, no counts: the counts are 3, 2, 2 |
| `Composition.ExplicitCountExample` | password_generator.py:46-78 | length 10, digits and letters, 3 digits requested: 3 digits and 7 letters |
| `PasswordGenerator.CheckRequest` | password_generator.py:9-23 | rejects a missing or non-positive length first, then a request with no class enabled; otherwise passes the length on |
| `PasswordGenerator.Distribute` | password_generator.py:72-78 | the loop computes `Allocation` |
| `PasswordGenerator.Draw` | password_generator.py:81-86 | it returns `max(n, 0)` characters, each from the class's alphabet |
| `PasswordGenerator.Collect` | password_generator.py:81-86 | the pre-shuffle list has each enabled class's count of characters from its alphabet, none from disabled classes, and nothing else |
| `PasswordGenerator.Shuffle` | password_generator.py:89 | the array after shuffling is a permutation of the array before |
| `PasswordGenerator.ComposedPermutation` | password_generator.py:89-91 | shuffling keeps the length, the per-class counts and the membership of every character |
| `PasswordGenerator.GeneratePasswordWithCounts` | password_generator.py:39-91 | rejected exactly when the sum of all counts exceeds the length; otherwise the password matches `Allocation`: length, per-class counts, characters only from enabled classes |
| `PasswordGenerator.GeneratePassword` | password_generator.py:5-37 | each rejection reason occurs exactly under its condition, checked in source order; a password is generated exactly when the length is a positive integer, some class is enabled and the counts do not exceed the length, and it is then as `GeneratePasswordWithCounts` gives for the parsed counts; the returned string is "" exactly when the request is rejected or the allocation draws no character |

## Left out

- Text parsing: the length field is an `Option<int>`. `None` stands for text that `int()` rejects, which the source catches and reports as an invalid length. Each count field is an `Option<int>`, with `None` for an empty field. A non-numeric count raises an uncaught `ValueError` (lines 31-33). That exception path is not modelled.
- Message boxes, their Russian/English wording and the `language` and `parent` arguments are left out. Each message box becomes a `Rejection` value.
- Randomness quality: `secrets.choice` and `SystemRandom().shuffle` are modelled as arbitrary choices. Uniformity and cryptographic strength are not stated.
- PasswordGenerator.Shuffle: states only that the result is a permutation of its input. It does not state that every permutation can occur.
- ui.py, saved_data_window.py, tempCodeRunnerFile.py and PasswordGeneratorV2.py (Qt windows, dialogs, theming, translations) are not part of this model.
- database.py (sqlite3 records, JSON backup and restore) is not part of this model. Its behaviour lives in SQLite and in file I/O.
