# CryptoGuard core, modelled in Dafny

CryptoGuard is a small browser application. A user signs in, picks a
symmetric cipher (AES, DES or Triple DES) and a passphrase, and encrypts or
decrypts free text. It keeps a most-recent-first log of the last ten
operations. This project models the three pieces of decision logic in it:

- **The cipher dispatcher** (`services/cryptoService.ts`, module
  `CryptoService`). `encrypt` and `decrypt` refuse empty input. They route on
  the algorithm identifier to one of three backends. `decrypt` turns every
  outcome into a string: the recovered text, `"Invalid key or corrupted
  data"`, `"Decryption failed: " + message`, `"Unsupported algorithm"`, or
  `""`. The cipher library is a parameter (`CipherLibrary`), a pair of
  functions with no interpretation. `encrypt(a, text, key)` gives a
  ciphertext string. `decrypt(a, ciphertext, key)` gives `Success(text)`, or
  `Failure(message)` when the library raises.
- **The operation log** (`components/Dashboard.tsx`, module `Dashboard`).
  An action on non-empty text and key runs the dispatcher. It puts the
  record in front of the log and cuts the log to ten entries. An action on
  empty input does nothing. CLEAR empties the log. The timestamp is an
  opaque string parameter.
- **The sign-in form** (`components/AuthForm.tsx`, module `AuthForm`). The
  required fields depend on the mode. The username falls back to the part of
  the email before the first `@`. A link toggles LOGIN and REGISTER.

The shared record types of `types.ts` are in module `Types`. `Option` and
`Result` are in module `Wrappers`.

Files: `wrappers.dfy`, `types.dfy`, `crypto_service.dfy`, `dashboard.dfy`,
`auth_form.dfy`.

Notes on the model:

- The dispatcher takes the algorithm as its identifier string. In
  TypeScript the enum members are these strings at run time. So the
  `default` branches are reachable for any other string. The dashboard holds
  a `CryptoAlgorithm` and passes `Types.Id(a)`.
- The round trip is conditional. It needs two things of the backend: it must
  invert its own encryption (`Inverts`), and it must never produce an empty
  ciphertext (`ProducesCiphertext`). Inversion alone is not enough. An empty
  ciphertext is stopped by `decrypt`'s input guard and comes back as `""`
  (`EmptyCiphertextBreaksRoundTrip`).
- A plaintext that happens to equal a sentinel cannot be told apart from that
  sentinel. The service returns both as the same string.
- The form's username field keeps its value when the mode is toggled. A
  username typed in REGISTER mode and then left by switching to LOGIN is
  still used by a LOGIN submission. The model keeps this behaviour.
- Key derivation happens inside the cipher library, so it is part of the
  `CipherLibrary` parameter. The program has separate `encrypt` and
  `decrypt` functions, and the dashboard picks one by direction
  (`Dashboard.Output`).
- The email field is an `<input type="email">` in a form that the browser
  validates (components/AuthForm.tsx:42, 57). The browser only submits an
  empty email or a well-formed address, which has an `@`. So the fallback to
  the whole email when it has no `@` cannot be reached from the page. The
  model accepts any string for the email, which covers more cases than the
  page allows.

## Model

| member | source | states |
|---|---|---|
| Types.FromId | types.ts:2-6 | an identifier is recognised exactly when it is the run-time value of one of the three enum members, and then it names that member |
| Types.IdRoundTrip | types.ts:2-6 | every member is recognised from its own identifier, and no two members share one |
| CryptoService.Encrypt | services/cryptoService.ts:5-18 | empty text or key gives `""` whatever the library does; a recognised identifier gives exactly that backend's ciphertext; any other identifier gives `""` |
| CryptoService.Decrypt | services/cryptoService.ts:20-43 | the result is `""` exactly when the ciphertext or key is empty; otherwise an unknown identifier gives `"Unsupported algorithm"`, a non-empty decoding is returned as is, an empty decoding gives `"Invalid key or corrupted data"`, and a raised error with message m gives `"Decryption failed: " + m` instead of propagating |
| CryptoService.RoundTrip | services/cryptoService.ts:5-43 | for non-empty text and key, if the backend inverts its own encryption and never yields an empty ciphertext, decrypting the service's ciphertext with the same key and algorithm returns the text |
| CryptoService.EmptyCiphertextBreaksRoundTrip | services/cryptoService.ts:21 | a backend ciphertext that is empty is stopped by decrypt's input guard, so the round trip returns `""` and not the text |
| CryptoService.UnknownAlgorithmNeverRoundTrips | services/cryptoService.ts:15-16 | for an identifier outside the enum, encrypt gives `""` and decrypting that gives `""` |
| Dashboard.Take | components/Dashboard.tsx:34 | `slice(0, n)` keeps a prefix of length min(length, n) |
| Dashboard.Init | components/Dashboard.tsx:13-16 | the panel starts with empty inputs, AES selected and an empty log, which is within capacity |
| Dashboard.Record | components/Dashboard.tsx:20-34 | empty text or key leaves the log unchanged; otherwise the log has length min(old + 1, 10), its head records the dispatcher's output for the action's direction, the chosen algorithm, the direction and the timestamp, and its tail is the first min(old, 9) old entries in order; an encrypt action logs the backend's ciphertext and a decrypt action never logs `""`; a log within 10 stays within 10 |
| Dashboard.HandleAction | components/Dashboard.tsx:20-34 | only the log changes (text, key and algorithm stay), the log follows `Record` on the panel's inputs, and the bound of 10 is preserved |
| Dashboard.Clear | components/Dashboard.tsx:146 | the log becomes empty whatever it held, and the inputs are kept |
| Dashboard.ReplayKeepsNewest | components/Dashboard.tsx:34 | from a log within capacity, any run of actions leaves the first 10 of: the effective actions' records newest first, then the old log |
| Dashboard.ReplayFromEmpty | components/Dashboard.tsx:34 | from an empty log, any run of actions leaves exactly the last min(N, 10) records of the N effective actions, newest first |
| Dashboard.EleventhActionEvictsFirst | components/Dashboard.tsx:34 | eleven effective actions from an empty log leave exactly 10 entries: entry i is the record of action 10 - i, so they run from the eleventh record down to the second, and the first is evicted |
| AuthForm.Init | components/AuthForm.tsx:10-14 | the form starts in LOGIN mode with every field and the error empty |
| AuthForm.ToggleMode | components/AuthForm.tsx:85 | the toggle changes the mode and nothing else |
| AuthForm.ToggleTwice | components/AuthForm.tsx:85 | toggling twice restores the form |
| AuthForm.Split | components/AuthForm.tsx:23 | `split(sep)` gives at least one piece, no piece contains the separator, and joining the pieces with it gives the string back |
| AuthForm.SplitJoin | components/AuthForm.tsx:23 | splitting a join of separator-free pieces gives back the same pieces, the other direction of the round trip |
| AuthForm.SplitUnique | components/AuthForm.tsx:23 | two lists of separator-free pieces with the same join are equal, so the split is the only such decomposition |
| AuthForm.LocalPart | components/AuthForm.tsx:23 | `email.split('@')[0]` is a prefix of the email with no `@`, followed in the email by an `@` unless it is the whole email |
| AuthForm.Submit | components/AuthForm.tsx:16-26 | no user is emitted exactly when the email or password is empty, or the mode is REGISTER and the username is empty; then the error becomes `"Required fields missing."` and nothing else changes; otherwise the form is unchanged and the user has the entered email and the entered username, or the email's part before the first `@` when none was entered |
| AuthForm.LoginIgnoresUsername | components/AuthForm.tsx:18 | in LOGIN mode the username field never decides whether a submission is accepted |
| AuthForm.RegisterRequiresUsername | components/AuthForm.tsx:18-20 | in REGISTER mode an empty username alone rejects the submission with the required-fields error |

## Left out

- CryptoService.Encrypt: the library draws a fresh random salt on every call, so the same text, key and algorithm give a different ciphertext each time. `lib.encrypt` stands for one such draw and is a plain function. So in the model two encryptions of the same inputs give the same ciphertext, which is not true of the program. No property stated here depends on it. `Inverts` must hold for every draw.

- The cipher library: AES, DES and Triple DES in CBC mode, the passphrase key derivation, and the Base64 serialisation. The library's source is not part of this model. It is the uninterpreted `CipherLibrary` parameter. The round trip is proved under an explicit inversion hypothesis, not from the ciphers.
- The wrong-key property: a different passphrase never recovers the plaintext. This is a claim about the ciphers, and the dispatcher does not guarantee it.
- An error raised by the library's `encrypt`: the code does not catch it (services/cryptoService.ts:10-14). The model treats the backend's encrypt as total.
- A thrown value that is not an `Error`: `(error as Error).message` would then read `undefined`. The model gives every failure a message string.
- services/geminiService.ts: the advisory note is a network call to an external text-generation service with a fallback string. It never feeds the cipher or log logic.
- App.tsx: session persistence through `localStorage` and JSON. This is I/O plumbing.
- The Date-based timestamp (components/Dashboard.tsx:31): it is an opaque string parameter.
- The async insight state (`isLoadingInsight`, `aiInsight`, components/Dashboard.tsx:36-39): UI state that is updated concurrently and never touches the log.
- Rendering, the clipboard copy, and the field `onChange` setters: UI concerns. The setters only store what was typed, so each field of the state records take any string.
