# Referral-code registry (referrals pallet)

This project models the referrals pallet of the HydraDX node. The pallet keeps
`ReferralCodes`, a map from a referral code (a byte string whose length is bounded by
`T::CodeLength`) to the account that owns the code. It has one dispatchable,
`register_code(origin, code, account)`, which runs four checks in a fixed order:

1. the code must fit the length bound (`TooLong`);
2. the code must be at least `MIN_CODE_LENGTH = 3` bytes long (`TooShort`);
3. every byte, read as the `char` with the same code point, must be alphanumeric (`InvalidCharacter`);
4. the code must not already be a key (`AlreadyExists`).

On success it stores `code -> account` and deposits `CodeRegistered { code, account }`.
On failure nothing changes.

Files:

- `charclass.dfy` (module `CharClass`): the byte type and Rust's `char::is_alphanumeric`
  on the code points U+0000..U+00FF. Those are the only code points a `u8 as char` cast
  can produce. The byte test accepts `0-9A-Za-z`. It also accepts some Latin-1 bytes:
  0xAA, 0xB2, 0xB3, 0xB5, 0xB9, 0xBA, 0xBC–0xBE, 0xC0–0xD6, 0xD8–0xF6 and 0xF8–0xFF.
  It rejects every other byte.
- `referrals.dfy` (module `Referrals`): the error and event types, the validation as pure
  functions (`Validate`, `Outcome`), and the pallet's storage as the class `Pallet`, with
  `RegisterCode` as a method that updates the map and the event log in place. The class
  invariant `Valid()` says three things:
  - every stored code is well formed;
  - no two events name the same code;
  - the map is exactly the replay of the deposited `CodeRegistered` events.

Where the source's doc comment and its code disagree, the model follows the code:

- The doc comment on `register_code` says that characters are converted to upper case.
  The code stores the bytes exactly as submitted, so `abc` and `ABC` are different keys
  (`CaseIsSignificant`).
- The doc comment says that `origin` pays a registration fee. `register_code` charges no
  registration fee (the framework's weight-based transaction fee is outside the pallet), and
  the signed origin is not otherwise used.

## Model

| member | source | states |
|---|---|---|
| CharClass.AsChar | pallets/referrals/src/lib.rs:115 | `*c as char` gives the code point equal to the byte's value |
| CharClass.IsAlphanumeric | pallets/referrals/src/lib.rs:115 | on ASCII, accepts exactly `0-9A-Za-z`, so punctuation, space and control bytes fail; in U+0080..U+00BF, accepts exactly the nine listed letters, superscripts and fractions; from U+00C0 up, accepts everything except × and ÷ |
| Referrals.AllAlphanumeric | pallets/referrals/src/lib.rs:111-117 | the `iter().all` scan is true exactly when every byte of the code is alphanumeric |
| Referrals.Validate | pallets/referrals/src/lib.rs:106-117 | `Ok` if and only if the length is in [3, CodeLength] and all bytes are alphanumeric; `TooLong` if and only if the code exceeds the bound; `TooShort` if and only if it fits but is shorter than 3 (so length 3 passes); `InvalidCharacter` if and only if the length is valid and some byte is not alphanumeric |
| Referrals.Outcome | pallets/referrals/src/lib.rs:106-121 | succeeds if and only if the code is well formed and not yet a key; `AlreadyExists` if and only if it is well formed and already a key; any other error is the first failing length or character check |
| Referrals.ReplayKeys | pallets/referrals/src/lib.rs:119-122 | a code is a key of the map built from the events if and only if some `CodeRegistered` event names it |
| Referrals.ReplayOwner | pallets/referrals/src/lib.rs:121-122 | with distinct codes, each event's code maps to that event's account |
| Referrals.ReplaySize | pallets/referrals/src/lib.rs:119-122 | with distinct codes, the map has exactly as many keys as there are events |
| Referrals.SecondRegistrationFails | pallets/referrals/src/lib.rs:119-121 | after a successful registration, registering the same code again gives `AlreadyExists` |
| Referrals.OutcomeIgnoresOtherKeys | pallets/referrals/src/lib.rs:119-120 | registering one code never changes the outcome of registering a different code |
| Referrals.SeparatorRejected | pallets/referrals/src/lib.rs:111-117 | a code of valid length that contains `-`, a space or `_` is rejected with `InvalidCharacter`, whatever the map holds |
| Referrals.CaseIsSignificant | pallets/referrals/src/lib.rs:119-121 | `abc` registers into an empty map, and `ABC` still registers after `abc`: the two are different keys and neither is case-folded |
| Referrals.Pallet.constructor | pallets/referrals/src/lib.rs:59-64 | storage starts with no codes and no events, and the invariant holds |
| Referrals.Pallet.ReferralAccount | pallets/referrals/src/lib.rs:62-64 | the `referral_account` getter returns the stored owner of a code, or `None` when the code is not a key |
| Referrals.Pallet.EventsMatchCodes | pallets/referrals/src/lib.rs:119-122 | in a valid state there is one `CodeRegistered` event per stored code, and each event names its code's current owner |
| Referrals.Pallet.RegisterCode | pallets/referrals/src/lib.rs:104-125 | the result is the first failing check (`Outcome`); on success the code maps to the account, every other key is unchanged, the map grows by exactly one key, and exactly one `CodeRegistered { code, account }` event is appended; on any error the map and the event log are unchanged; the invariant is preserved |
| Referrals.RegisterTwice | pallets/referrals/src/lib.rs:119-121 | registering a free, valid code and then the same code for another account: the first call succeeds, the second gives `AlreadyExists`, and `referral_account` still returns the first owner |
| Referrals.Scenario | pallets/referrals/src/lib.rs:104-125 | on fresh storage with bound 3: `abc` and `ABC` both succeed; `abc` again gives `AlreadyExists`; `ab` gives `TooShort`; `abcd` gives `TooLong`; `a-c` gives `InvalidCharacter`; `abc` is still owned by its first registrant |

## Left out

- Origin handling (`ensure_signed`): the framework resolves it before the call's logic runs, and the signed account is unused, so the model has no origin parameter. A `BadOrigin` failure is not modelled.
- The registration fee and the upper-case conversion that the doc comment describes: neither exists in the code.
- `BoundedVec` internals, `Blake2_128Concat` key hashing and storage encoding: the bound is a length comparison and the storage is a Dafny `map`.
- Event delivery: events are an ever-growing sequence in the model. The per-block clearing of the event store is not modelled.
- `T::CodeLength` is a `u32` in the source and a `nat` here. Only its comparison with the code length matters, so the width has no effect.
- CharClass.IsAlphanumeric: it covers only U+0000..U+00FF. This is the whole range a byte-to-`char` cast can produce, so nothing reachable is missing.
- Referrals.Pallet.RegisterCode: it requires the class invariant `Valid()`. Every state built by the constructor and by `RegisterCode` satisfies it.
- The bonds pallet (issue, redeem, unlock) and the repository's other pallets are separate pallets and are not modelled.
