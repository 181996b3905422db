# validate-auth, modelled in Dafny

A model of the credential-checking middleware library `validate-auth`
(`index.js`). A factory takes a configuration and resolves a few settings:

- the three field names;
- whether e-mail addresses are lower-cased;
- the password requirements;
- the minimum number of passphrase words.

The factory then hands out request stages. Each stage reads or rewrites the request body and then either continues (`next()`),
replies with an error status and message, or throws:

- **the passphrase gate** (`allowNewPassphrase`, and `allowExistingPassphrase`,
  which is the same gate without the word-count check). It marks the request,
  routes on which of the password and passphrase fields are present, and
  writes the normalised passphrase into the password field;
- **the e-mail check** (`validateEmail`). It trims the address, lower-cases it
  unless configured otherwise, stores it back and tests its shape;
- **the new-password check** (`validateNewPassword`). It refuses to run after
  the gate, and otherwise tests the password against the requirements.

Underneath are the pure pieces: the passphrase normaliser
`normalizePassphrase`, the requirement resolver `pwdReqs`, the password
predicate `validPassword` and the dispatcher `reply`.

Modules, one file each:

| file | module | what it holds |
|---|---|---|
| `wrappers.dfy` | `Wrappers` | `Option`, and JavaScript's `a \|\| b` fallback for numbers, strings and flags |
| `text.dfy` | `Text` | the JavaScript string primitives the library uses, on an ASCII character model |
| `passphrase.dfy` | `Passphrase` | `normalizePassphrase`: one specification function per step, the source's own three loops as methods proved against it, and the shape of the output |
| `password.dfy` | `Password` | `pwdReqs` and `validPassword` |
| `email.dfy` | `Email` | the e-mail regular expression of index.js:90, rewritten as predicates |
| `exchange.dfy` | `Exchange` | the request and response objects, stage outcomes and `reply` |
| `validate_auth.dfy` | `ValidateAuth` | the factory and the three stages, each as a function on the body and a method on a request |

JavaScript truthiness is modelled explicitly:

- A body field counts as present only when it is a non-empty string.
- A number setting of 0 falls back to its default.
- A flag is off only when it is exactly `false`.
- An object message is always truthy.

The mixed-case check (index.js:127) requires the password to change under both
`toUpperCase` and `toLowerCase`. A string with no letters therefore fails it, and
`Password.LetterFree` states this.

## Model

| member | source | states |
|---|---|---|
| Passphrase.AllowedIff | index.js:171 | a character is kept exactly when it is one of the 37 characters of the allowed string |
| Passphrase.KeepAllowed | index.js:171-174 | the kept characters are all allowed and all come from the input |
| Passphrase.Squeeze | index.js:177 | the fixed point of the loop: every run of spaces collapsed to one; its characters all come from the input |
| Passphrase.LongWords | index.js:180 | the `filter`: the words of more than one character, in order |
| Passphrase.LongWordsMembers | index.js:180 | the filter keeps exactly the words longer than one character |
| Passphrase.Dedup | index.js:181-182 | the first occurrence of each word, in order |
| Passphrase.Candidates | index.js:167-180 | lower-case, keep the allowed characters, squeeze, trim, split at spaces and keep the long words |
| Passphrase.FilterAllowed | index.js:171-174 | the character loop keeps exactly the allowed characters, in order |
| Passphrase.CollapseSpaces | index.js:177 | the replace-while-present loop ends at the squeezed form, with no double space left |
| Passphrase.SqueezeReplaceFirst | index.js:177 | replacing the first double space shortens the string and keeps its collapsed form, so the loop terminates at that form |
| Passphrase.SqueezeNoAdjacent | index.js:177 | the squeezed form has no two spaces in a row |
| Passphrase.UniqueWords | index.js:181-182 | the push-if-absent loop yields the first occurrence of every word, in order |
| Passphrase.Normalized | index.js:164-186 | the specification of normalisation: lower-case, keep the allowed characters, collapse spaces, trim, split, keep words of two or more characters, drop repeats, join with single spaces; its properties are the lemmas below |
| Passphrase.NormalizePassphrase | index.js:164-186 | the source's algorithm equals the step-by-step specification `Normalized` |
| Passphrase.DedupMembers | index.js:181-182 | de-duplication keeps every word and repeats none |
| Passphrase.DedupOrder | index.js:181-182 | the kept words appear in the order of their first occurrences |
| Passphrase.CandidateWords | index.js:180 | every word that survives the split and the length filter has two or more characters, all lower-case letters or digits |
| Passphrase.OutputWords | index.js:180-184 | the joined words are good words, none repeated, and exactly the candidate words |
| Passphrase.NormalizedAlphabet | index.js:167-184 | the output holds only `a-z`, digits and space |
| Passphrase.NormalizedSpacing | index.js:177-184 | the output has no two spaces in a row and no space at either end |
| Passphrase.NormalizedWords | index.js:180-184 | split at its spaces, a non-empty output gives back the distinct candidate words, each of two or more characters |
| Passphrase.NormalizedOrder | index.js:180-184 | the output's words are exactly the candidate words, each once, in first-occurrence order |
| Passphrase.WordCount | index.js:69 | `candidate.split(' ').length` is the number of distinct candidate words, and 1 when there are none |
| Passphrase.CleanTextFixed | index.js:167-180 | text already in normal form passes lower-casing, filtering, collapsing and trimming unchanged |
| Passphrase.NormalizedIdempotent | index.js:164-186 | normalising a normalised passphrase changes nothing |
| Passphrase.DisallowedDropped | index.js:171-174 | deleting one character that is not kept once lower-cased leaves the result unchanged |
| Passphrase.DisallowedRunDropped | index.js:171-174 | the same for a whole run of such characters |
| Passphrase.ExampleCase | test/normalize-passphrase.test.js:8-13 | `"Abc Def"` normalises to `"abc def"` |
| Passphrase.ExamplePunctuation | test/normalize-passphrase.test.js:15-20 | `"!Abc Def can't -! !!!!!"` normalises to `"abc def cant"` |
| Passphrase.ExampleRepeat | test/normalize-passphrase.test.js:51-56 | `"abc def abc ghi"` normalises to `"abc def ghi"` |
| Password.PwdReqs | index.js:142-161 | the resolved minimum length is never 0 |
| Password.OverrideWins | index.js:145-151 | a truthy override gives length 1 and no other requirement, whatever else is configured |
| Password.Resolution | index.js:154-160 | without the override: the given length, or 8 when it is missing or 0; each flag is false exactly when given as `false` |
| Password.DefaultRequirements | index.js:154-160 | no configuration gives length 8 and all four flags on |
| Password.IsSymbolChar | index.js:128 | a symbol is exactly a character that is neither a letter nor a digit, so space counts and `'0'`-`'9'` never do |
| Password.IsNumberChar | index.js:129 | a number character is exactly a digit, `'0'` included |
| Password.HasSymbol | index.js:128 | some character is a symbol character |
| Password.HasNumber | index.js:129 | some character is a digit |
| Password.HasMixedIff | index.js:127 | mixed case holds exactly when there is an upper-case letter and a lower-case letter |
| Password.HasAlphaIff | index.js:130 | alpha holds exactly when there is a letter |
| Password.LetterFree | index.js:127-130 | a string without letters fails both the mixed and the alpha check |
| Password.ValidPassword | index.js:122-138 | the specification of the password check: the minimum length, then each requirement whose flag is on; its properties are the lemmas below |
| Password.ValidPasswordIff | index.js:122-138 | the predicate, restated character by character, for every requirement record |
| Password.LengthAlwaysChecked | index.js:132 | an accepted password always meets the minimum length |
| Password.OnlyLength | index.js:132-136 | with every flag off, the predicate is exactly the length check |
| Password.EmptyFailsOverride | test/valid-password.test.js:397-400 | the empty password fails even under the override |
| Password.OverrideAcceptsOne | test/valid-password.test.js:402-405 | under the override, `"A"` is accepted |
| Password.DefaultAccepts | test/valid-password.test.js:11-14 | `"Aaaaaa1!"` meets the defaults |
| Password.DefaultRejectsUpper | test/valid-password.test.js:21-24 | `"AAAAAA1!"` fails the defaults |
| Password.DefaultRejectsLetterFree | index.js:127-130 | with the defaults, the letter-free `"1!1!1!1!"` fails |
| Password.NoMixedRejectsLetterFree | test/valid-password.test.js:115-152 | with `needMixed: false`, `"1!1!1!1!"` fails, and it would pass without the alpha check, so that check alone rejects it |
| Email.AddressLiteralNoAt | index.js:90 | a bracketed dotted quad contains no `@` |
| Email.DomainNoAt | index.js:90 | neither domain alternative contains an `@` |
| Email.EmailShape | index.js:90 | the specification of the expression: some `@` splits the address into a local part and a domain |
| Email.IsEmail | index.js:90 | the decision the stage uses: split at the last `@`; `Email.EmailAtLastAt` proves it equal to `Email.EmailShape` |
| Email.EmailAtLastAt | index.js:90 | the anchored expression matches exactly when the split at the last `@` gives a local part and a domain |
| Email.SingleAt | index.js:90 | with exactly one `@`, the expression matches exactly when that split does |
| Email.PlainLocal | index.js:90 | a non-empty run of local-part characters is a local part |
| Email.TwoLabelHost | index.js:90 | one label, a dot and a top label of two or more letters form a host name |
| Email.Prepare | index.js:87-88 | the value matched against the expression has no white space at either end, and no upper-case letter when lower-casing is on |
| Email.AcceptsPlain | test/validate-email.test.js:163 | `a@b.co` matches |
| Email.RejectsLeadingDomainDot | test/validate-email.test.js:164 | `a@.b.co` does not match |
| Email.RejectsTrailingDomainDot | test/validate-email.test.js:165 | `a@b.co.` does not match |
| Email.RejectsShortTopLabel | test/validate-email.test.js:166 | `a@b.c` does not match |
| Email.AcceptsSubdomain | test/validate-email.test.js:167 | `a@b.c.co` matches |
| Email.RejectsEmptyLabel | test/validate-email.test.js:168 | `a@b..c.co` does not match |
| Email.RejectsSingleLabel | test/validate-email.test.js:169 | `a@b` does not match |
| Email.RejectsEmptyLocal | test/validate-email.test.js:170 | `@b.co` does not match |
| Email.RejectsEmptyDomain | test/validate-email.test.js:171 | `a@` does not match |
| Email.RejectsTrailingLocalDot | test/validate-email.test.js:172 | `a.@b.co` does not match |
| Email.RejectsLeadingLocalDot | test/validate-email.test.js:173 | `.a@b.co` does not match |
| Email.RejectsDotsAroundLocal | test/validate-email.test.js:174 | `.a.@b.co` does not match |
| Email.AcceptsDottedLocal | test/validate-email.test.js:175 | `a.b@b.co` matches |
| Email.RejectsDoubleLocalDot | test/validate-email.test.js:176 | `a..b@b.co` does not match |
| Email.AcceptsTwoDots | test/validate-email.test.js:177 | `a.b.c@b.co` matches |
| Email.AcceptsCapitals | test/validate-email.test.js:141-158 | `TEST@SOME.NET`, kept in capitals when lower-casing is off, matches |
| Email.AcceptsLowered | test/validate-email.test.js:87-103 | `test@some.net` matches |
| Exchange.ReplyCalls | index.js:189-193 | `reply` makes two calls: the status first, then `json` exactly for an object payload |
| Exchange.Present | index.js:62-65 | a body field is truthy exactly when it is there and not the empty string |
| Exchange.Delivered | index.js:190-192 | the status call delivers no payload; `json` and `send` do |
| Exchange.ReplyDelivers | index.js:189-193 | the client receives exactly the status and the payload given to `reply` |
| Exchange.SendReply | index.js:189-193 | the response's calls grow by exactly the two calls of `reply` |
| Exchange.OutcomeCalls | index.js:56-74 | a stage touches the response exactly when it replies |
| ValidateAuth.Configure | index.js:4-15 | each field name is the configured one when given and not empty, else `email`, `password` or `passphrase`; the requirements are `pwdReqs` of the `password` section, or of `{}` when it is missing; `minWords` is the configured count unless it is missing or 0, else 9; lower-casing is off exactly when configured `false` |
| ValidateAuth.DefaultSettings | index.js:4-15 | no configuration gives the default names, lower-casing, the strictest requirements and nine words |
| ValidateAuth.MsgOr | index.js:35-36 | the JavaScript "or" fallback for a message: a configured message that is not the empty string is used, anything else gives the default text |
| ValidateAuth.NeitherMessage | index.js:35 | the configured "neither" message, or the default text naming both fields |
| ValidateAuth.BothMessage | index.js:36 | the configured "both" message, or the default text naming both fields |
| ValidateAuth.InvalidEmailMessage | index.js:79 | the configured message, or `Invalid email address` |
| ValidateAuth.InvalidPasswordMessage | index.js:102 | the configured message, or `Password doesn't meet requirements` |
| ValidateAuth.ErrorStatus | index.js:54 | the configured status when it is given and not 0, else 400 |
| ValidateAuth.ShortMessage | index.js:38-52 | an object message keeps its keys; a missing or empty string message gives the default text `Normalized passphrase needs N unique words > 1 character` with the count |
| ValidateAuth.ShortMessageSubstitutes | index.js:40-47 | when no `$` comes before the first `${minWords}`, a string message, and each object value, gets the count in its place and keeps the rest |
| ValidateAuth.ShortMessageWithoutPlaceholder | index.js:40-47 | a non-empty string message without `${minWords}` is sent as it is, and so is each object value without one |
| ValidateAuth.PlaceholderReplaced | index.js:41 | when no `$` comes before the first `${minWords}`, that placeholder becomes the count, and the rest of the message is kept, further placeholders included |
| ValidateAuth.Gate | index.js:56-74 | the gate never throws; a reply carries the error status and leaves the body alone; a changed body means `next()` |
| ValidateAuth.GateRoutes | index.js:60-65 | no body gives `next()`; neither field present gives the "neither" reply; both give the "both" reply; only the password gives `next()` with the body unchanged |
| ValidateAuth.GateAcceptsIff | index.js:67-72 | with only a passphrase, the new gate continues exactly when the distinct words reach `minWords`, writing their join into the password field; otherwise it sends the short-passphrase reply |
| ValidateAuth.ShortRejected | index.js:69-72 | a passphrase with too few words gets the short-passphrase reply and the body is left alone |
| ValidateAuth.ExistingAlwaysWrites | index.js:31 | with only a passphrase, the existing-passphrase gate always writes the normalised passphrase into the password field and continues |
| ValidateAuth.ExistingSkipsOnlyLength | index.js:31 | on a passphrase-only body the existing gate writes and continues, and the new gate either does the same or sends the short-passphrase reply; on every other body the two gates agree |
| ValidateAuth.GateWritesNormalized | index.js:67-70 | whatever the gate writes into the password field is the normalised passphrase: allowed characters, single spaces, distinct words |
| ValidateAuth.AllowNewPassphrase | index.js:33-75 | the marker is set on every path; the outcome and the new body are the gate's; the response is written exactly when the gate replies |
| ValidateAuth.AllowExistingPassphrase | index.js:31 | the same with the word-count check skipped |
| ValidateAuth.EmailStage | index.js:82-96 | a present address is stored in its prepared form, even when the stage then rejects it; the stage replies exactly when that form does not match; a missing body or address gives `next()` unchanged |
| ValidateAuth.ValidateEmail | index.js:77-98 | the method performs the e-mail stage on the request and sends its reply, leaving the marker alone |
| ValidateAuth.PaddedAddress | index.js:87-88 | an address padded with white space is stored unpadded, lower-cased when configured, and accepted exactly when that stored form matches |
| ValidateAuth.PasswordStage | index.js:105-118 | the stage throws exactly when the marker is set; it replies exactly when there is a present password that fails the requirements |
| ValidateAuth.ValidateNewPassword | index.js:100-120 | the method performs that stage without touching the request |
| ValidateAuth.GateThenPasswordThrows | index.js:58 | after either gate variant, the new-password stage throws, whatever the body |
| ValidateAuth.DefaultGateMessages | index.js:35-54 | with no options the status is 400, and the neither, both and short texts name `password`, `passphrase` and nine words |
| ValidateAuth.DefaultEmailReply | test/validate-email.test.js:214-244 | with no options a malformed address gets status 400 and `Invalid email address` |
| ValidateAuth.DefaultPasswordReply | test/validate-new-password.test.js:115-129 | with no options a failing password gets status 400 and `Password doesn't meet requirements` |
| ValidateAuth.ExistingAcceptsShort | test/allow-existing-passphrase.test.js:83-93 | with three words required, the existing-passphrase gate writes `"abc def"` for `"Abc Def"` and continues |
| ValidateAuth.TwoWords | index.js:69 | `"Abc Def"` and `"abc def"` count as two words |
| ValidateAuth.NewRejectsShort | test/allow-new-passphrase.test.js:163-177 | the new gate rejects that passphrase with status 400 and the custom message with the count substituted (`need 3`) |
| ValidateAuth.NewRejectsShortObject | test/allow-new-passphrase.test.js:179-193 | the same with an object message: its value is substituted |
| ValidateAuth.NewRejectsShortVerbatim | test/allow-new-passphrase.test.js:131-159 | the new gate rejects the short passphrase with `my custom string` exactly, as a string and as the value of an object message |
| Wrappers.IntOr | index.js:15 | the JavaScript "or" fallback for a number: the given number unless it is missing or 0, otherwise the default |
| Wrappers.StringOr | index.js:4-6 | the JavaScript "or" fallback for a string: the given string unless it is missing or empty, otherwise the default |
| Wrappers.FlagOn | index.js:9 | a flag is on unless it is given as exactly `false` |
| Text.CaseInvariantIff | index.js:128 | the two case mappings agree exactly on the characters that are not letters |
| Text.LowerChangesIff | index.js:127 | lower-casing changes a string exactly when it holds an upper-case letter |
| Text.UpperChangesIff | index.js:127 | upper-casing changes a string exactly when it holds a lower-case letter |
| Text.TrimPadded | index.js:87 | `trim` removes exactly the white-space padding around a non-blank text |
| Text.IndexOf | index.js:177 | the result is an occurrence, or -1, and no earlier index is one |
| Text.ReplaceFirst | index.js:41 | a string without the pattern comes back unchanged; with one, the length changes by the difference between the replacement and the pattern |
| Text.ReplaceFirstAt | index.js:41 | `replace` with a string pattern replaces the first occurrence only |
| Text.SplitPieces | index.js:180 | no piece of a split holds the separator |
| Text.JoinSplit | index.js:180-184 | joining the pieces of a split gives back the string |
| Text.SplitJoin | index.js:180-184 | splitting a join of separator-free words gives back the words |
| Text.NatToStringRoundTrip | index.js:41 | the decimal rendering of the word count reads back as the count |

## Left out

- HTTP plumbing. Express's `req`, `res` and `next` become a `Request` object holding the body and the marker, a `Response` object that records the calls made on it, and a returned outcome (`Next`, a reply, or `Throws`).
- Full Unicode. Case mapping, `trim` and the expression's `\s` follow an ASCII model. The string length is the length of the character sequence, not JavaScript's UTF-16 length.
- Values of other types. Configuration and body values of other JavaScript types are not modelled. Settings are optional integers, strings, booleans or messages, and body fields are strings.
- The regular expression engine. The one expression at index.js:90 is written out by hand as predicates instead.
- `sendPasswordRequirements`. This wrapper (index.js:22) only sends the resolved requirements as JSON. Its test expects a `minPassphraseWords` key that this code never sends.
- The test-only exports (`__normalizePassphrase`, `__reply`, `__pwdReqs`, index.js:26-28). They expose the modelled functions under other names.
- The assignment to the undeclared variable `key` (index.js:45). In non-strict JavaScript it creates a global; the model has no globals.
- JavaScript numbers. Numeric settings (`minWords`, `minLength`, `errorStatus`) are unbounded integers, and `toString` is their decimal form; fractions, `NaN` and the exponent notation used from 1e21 on are not modelled.
- ValidateAuth.ShortMessage: an object message whose values are not all strings is not modelled. The source would call `replace` on such a value and throw.
