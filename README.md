# Username and password validation of `register_user`

This project models the one piece of sequential logic in the small C program
`hash-and-store-password`. That piece is the input validation done by
`register_user` in `src/main.c`.

`register_user` reads a username, then a password. Each comes from standard
input through `scanf("%s", ...)`, inside a retry loop. A token is accepted
only if two checks pass:

- a `for` loop has cleared an `is_alnum` flag for no character, so every
  character passes `isalnum`;
- `strlen` is below 10.

When both fields have been accepted, the password is hashed. The result of
the hash is discarded and a success message is printed. The function returns 0.

The model has two modules:

- `Validation` (`validation.dfy`): the field check.
  - `CStr` is the C string held in a token's buffer: the characters before
    the first NUL. `scanf("%s")` stops only at white space, so a token can
    hold a NUL. `strlen`, the scan loop and `printf("%s")` all stop at it.
  - `IsAlnum` is `isalnum` in the "C" locale: ASCII letters and digits.
  - `ValidField` is the acceptance rule, applied to a token's C string. The C
    string is accepted when it has fewer than `LengthBound` = 10 characters
    and all of them are alphanumeric.
  - `ScanFlag` gives the value of the `is_alnum` flag after the scan loop
    has looked at the first `i` characters.
  - `ScanAlnum` is the scan loop itself, as a method.
  - `CheckToken` is one pass of a retry loop's body.
  - The username and the password run the same code, so one predicate and
    one method serve both fields.
- `Registration` (`registration.dfy`): the retry loops and `register_user`.
  - Standard input is a finite sequence of tokens, the runs of non-white
    characters that `scanf("%s")` stores. What is checked and registered is
    each token's `CStr`.
  - Both loops read from the same stream. The password loop therefore starts
    at the token after the accepted username.
  - `FirstValid` is the reference definition of a retry loop: the position
    of the first accepted token.
  - `PromptUntilValid` is the loop itself, as a method.
  - `Register` is the outcome of the whole function, and `RegisterUser` is
    the method that computes it.
  - When the tokens run out inside a loop, the outcome is `InputExhausted`.

The C flags `is_alnum`, `username_is_valid` and `password_is_valid` hold 0
or 1. The model stores them as `bool`.

The code and its own comments and prompts disagree, and the model follows
the code:

- The username prompt says "max. 10 characters" (src/main.c:91). The comment
  says "shorter than 11" (src/main.c:96). The code accepts at most 9
  characters (src/main.c:102).
- The password prompt says "max. 8 characters" (src/main.c:110). The comment
  says "shorter than 9" (src/main.c:115). The code accepts 9 characters
  (src/main.c:121).
- A 9-character password would not fit the unused `password[9]` field of
  `struct Userdata` together with its terminating NUL.

The lemmas `TenCharacterUsernameRejected` and `NineCharacterPasswordAccepted`
show these gaps on concrete strings. `TenCharacterUsernameReprompted` and
`NineCharacterPasswordRegistered` show them for every such input.

## Model

| member | source | states |
|---|---|---|
| Validation.CStr | src/main.c:93-97 | the C string of a token is a prefix of it with no NUL, and it stops only where the token ends or at a NUL; the scan loop and `strlen` at src/main.c:97 and 102 see exactly this prefix |
| Validation.CStrOfNulFree | src/main.c:93-97 | a token without a NUL is its own C string |
| Validation.IsAlnum | src/main.c:98 | defines `isalnum` in the "C" locale: ASCII letters and digits (also used at src/main.c:117) |
| Validation.ValidField | src/main.c:102 | defines the acceptance rule for both fields: `strlen` below 10 and every character alphanumeric (the password rule at src/main.c:121 is the same) |
| Validation.ScanFlag | src/main.c:94-101 | defines the value of `is_alnum` after the scan loop has examined the first i characters; the flag is clear only if a non-alphanumeric character was among them |
| Registration.Register | src/main.c:80-132 | defines the outcome of `register_user`: the C string of the first accepted token as the username, that of the first accepted token after it as the password, or `InputExhausted` when either is missing; a registered username and password both pass the same rule, alphanumeric and shorter than 10 characters (src/main.c:102, 121) |
| Validation.ScanAlnum | src/main.c:94-101 | the scan loop ends with the flag set iff every character of the C string it scans is alphanumeric; its invariant is that the flag equals ScanFlag after each prefix (same loop for the password at src/main.c:113-120) |
| Validation.ScanFlagMeaning | src/main.c:94-101 | after positions [0, i) have been examined, the flag is set iff all of them are alphanumeric |
| Validation.ScanFlagNeverReset | src/main.c:97-101 | once the flag has been cleared at some position, it stays cleared at every later position of the same pass |
| Validation.CheckToken | src/main.c:94-104 | one pass of the retry body sets the validity flag iff the token's C string is shorter than 10 characters and entirely alphanumeric; characters after an embedded NUL are never looked at (the password check at src/main.c:113-123 is the same code) |
| Validation.NonAlnumRejected | src/main.c:97-102 | a C string with a non-alphanumeric character at any position is rejected |
| Validation.NonAsciiRejected | src/main.c:97-102 | a C string holding a character outside ASCII is rejected, so counting its characters where `strlen` counts bytes never changes acceptance |
| Validation.TooLongRejected | src/main.c:102 | a C string of 10 or more characters is rejected even when every character is alphanumeric |
| Validation.AcceptedAtMostNine | src/main.c:102-104 | every accepted C string has at most 9 characters |
| Validation.PrefixClosed | src/main.c:97-102 | every prefix of an accepted C string is accepted |
| Validation.TenCharacterUsernameRejected | src/main.c:91-102 | the all-alphanumeric 10-character username "abcdefghij" is rejected, although the prompt announces a maximum of 10 |
| Validation.NineCharacterPasswordAccepted | src/main.c:110-121 | the 9-character password "abcdefghi" is accepted, although the comment says shorter than 9 and the prompt a maximum of 8 |
| Registration.FirstValid | src/main.c:89-106 | a position found by the retry loop is in the part of the stream still unread and holds a token whose C string is accepted |
| Registration.FirstValidIsFirst | src/main.c:89-106 | the retry loop stops at position k iff the token at k is accepted and every token read before it from the same start was rejected |
| Registration.FirstValidNone | src/main.c:89-106 | the retry loop finds nothing iff no remaining token is accepted |
| Registration.PromptUntilValid | src/main.c:89-106 | the retry loop returns only an accepted token, and it returns the first one at or after its start; the password loop at src/main.c:107-124 is the same loop started after the username |
| Registration.RegisterUser | src/main.c:80-132 | register_user returns 0 on every path; it takes the success branch exactly when both loops accepted a token, with the username and password that Register describes |
| Registration.RegisteredTokens | src/main.c:89-124 | if the first accepted token is at u and the next accepted one after it is at p, registration yields the tokens at u and p |
| Registration.TwoValidRegisters | src/main.c:89-124 | any two accepted tokens in the stream, in order, are enough for both retry loops to end and registration to complete |
| Registration.RegisteredIffTwoValid | src/main.c:89-129 | the success branch is reached iff the input holds at least two accepted tokens |
| Registration.TenCharacterUsernameReprompted | src/main.c:89-106 | for any 10-character alphanumeric name followed by a valid username and password, the name is rejected despite the "max. 10" prompt and the next two tokens are registered |
| Registration.NineCharacterPasswordRegistered | src/main.c:107-124 | for any valid username followed by a 9-character alphanumeric password, that password is registered despite the "max. 8" prompt |
| Registration.EmbeddedNulTruncates | src/main.c:93-128 | with tokens "ab\0cd" and "pw", only "ab" is checked, accepted and registered as the username |

## Left out

- `hash_password` (src/main.c:68-78) is a call into OpenSSL's SHA-256. Its result, the address of a local array narrowed to `unsigned char`, is discarded by its only caller. The model records only that the success branch was reached.
- Terminal I/O is left out: `printf`, `clear_screen` (src/main.c:60-63) and the prompts. `scanf` is replaced by a given sequence of tokens. This leaves out the unbounded `%s` read into a 256-byte buffer and its possible overflow.
- Registration.PromptUntilValid: when input ends, the model stops at the end of the token sequence and answers None, and `RegisterUser` then yields `InputExhausted`. In C, once a loop has read at least one token, a failing `scanf` leaves the rejected token in the buffer and the loop never ends. If the input ends before a loop has read any token (empty input for the username loop, nothing after the accepted username for the password loop), C runs `strlen` and `isalnum` on the uninitialised `char[256]` buffer (src/main.c:82-83, 97, 102, 116, 121). That is undefined behaviour and may even accept whatever the buffer holds. The model does not capture either case.
- Tokens are sequences of Dafny `char`, which are Unicode scalar values, while `strlen` counts bytes. For a C string with non-ASCII characters, its length in the model is therefore smaller than `strlen`. Acceptance is unaffected, because such a string always fails `IsAlnum` (lemma `Validation.NonAsciiRejected`). The model also leaves out that in C, `isalnum` on a negative `char` (a byte of 128 or more where `char` is signed) is undefined behaviour (src/main.c:98, 117). The model rejects such a character.
- Locale-dependent `isalnum` is left out. Only the "C" locale (ASCII letters and digits) is modelled.
- `main_menu` (src/main.c:139-167) and `main` are left out. They form an interactive dispatch loop that ends in `exit(0)`.
- `login` (src/main.c:134-137) is left out. It is an empty stub that always returns 0.
- The structures `Userdata`, `Database` and `Connection` (src/main.c:45-58) are left out. No function reads, writes or stores them, so the model has no record store, no file format and no credential check.
