/** The referrals pallet: a registry from referral codes to accounts.

    `register_code` validates a submitted code (maximum length, minimum
    length, characters) and then inserts it into `ReferralCodes` unless it is
    already a key there, emitting `CodeRegistered` on success. Codes are
    stored exactly as submitted: there is no case conversion.
 */
module Referrals {
  import opened CharClass

  /** `MIN_CODE_LENGTH`: the shortest code accepted. */
  const MIN_CODE_LENGTH: nat := 3

  /** `ReferralCode`: the bytes of a code (its length bound is checked on entry). */
  type Code = seq<u8>

  /** The pallet's `Error` enum, in declaration order. */
  datatype Error = TooLong | TooShort | InvalidCharacter | AlreadyExists

  /** What a dispatchable returns: `Ok(())` or a pallet error. */
  datatype DispatchResult = Ok | Err(error: Error)

  /** The pallet's `Event` enum. */
  datatype Event<A> = CodeRegistered(code: Code, account: A)

  datatype Option<T> = None | Some(value: T)

  /** `code.iter().all(|c| char::is_alphanumeric(*c as char))`, scanning from
      the first byte. */
  function AllAlphanumeric(code: Code): (b: bool)
    ensures b <==> forall i | 0 <= i < |code| :: ByteIsAlphanumeric(code[i])
  {
    if code == [] then true else ByteIsAlphanumeric(code[0]) && AllAlphanumeric(code[1..])
  }

  /** A code that passes all three validity checks under the bound `codeLength`. */
  predicate WellFormed(code: Code, codeLength: nat) {
    MIN_CODE_LENGTH <= |code| <= codeLength
    && forall i | 0 <= i < |code| :: ByteIsAlphanumeric(code[i])
  }

  /** The checks before the storage access, in the source's order: the
      conversion to a bounded vector, the minimum length, the characters.
      The reported error is the first check that fails. */
  function Validate(code: Code, codeLength: nat): (r: DispatchResult)
    ensures r == Ok <==> WellFormed(code, codeLength)
    ensures r == Err(TooLong) <==> |code| > codeLength
    ensures r == Err(TooShort) <==> |code| <= codeLength && |code| < MIN_CODE_LENGTH
    ensures r == Err(InvalidCharacter) <==>
      MIN_CODE_LENGTH <= |code| <= codeLength
      && exists i | 0 <= i < |code| :: !ByteIsAlphanumeric(code[i])
    ensures r != Err(AlreadyExists)
  {
    if |code| > codeLength then Err(TooLong)
    else if |code| < MIN_CODE_LENGTH then Err(TooShort)
    else if !AllAlphanumeric(code) then Err(InvalidCharacter)
    else Ok
  }

  /** The outcome of `register_code(code, _)` against the map `codes`: the
      validity checks first, then the uniqueness check on the key. */
  function Outcome<A>(codes: map<Code, A>, codeLength: nat, code: Code): (r: DispatchResult)
    ensures r == Ok <==> WellFormed(code, codeLength) && code !in codes
    ensures r == Err(AlreadyExists) <==> WellFormed(code, codeLength) && code in codes
    ensures r != Err(AlreadyExists) ==> r == Validate(code, codeLength) || r == Ok
  {
    var v := Validate(code, codeLength);
    if v.Err? then v
    else if code in codes then Err(AlreadyExists)
    else Ok
  }

  /** True when no two events register the same code. */
  ghost predicate DistinctCodes<A>(es: seq<Event<A>>) {
    forall i, j | 0 <= i < j < |es| :: es[i].code != es[j].code
  }

  /** The map that the registrations in `es` build, applied in order. */
  ghost function Replay<A>(es: seq<Event<A>>): map<Code, A> {
    if es == [] then map[]
    else Replay(es[..|es| - 1])[es[|es| - 1].code := es[|es| - 1].account]
  }

  /** The keys of the replayed map are exactly the registered codes. */
  lemma {:induction false} ReplayKeys<A>(es: seq<Event<A>>, k: Code)
    ensures k in Replay(es) <==> exists i | 0 <= i < |es| :: es[i].code == k
  {
    if es != [] {
      var init := es[..|es| - 1];
      ReplayKeys(init, k);
      if exists i | 0 <= i < |init| :: init[i].code == k {
        var i :| 0 <= i < |init| && init[i].code == k;
        assert es[i].code == k;
      }
      if exists i | 0 <= i < |es| :: es[i].code == k {
        var i :| 0 <= i < |es| && es[i].code == k;
        if i < |init| { assert init[i].code == k; }
      }
    }
  }

  /** Each registered code maps to the account of its (only) registration. */
  lemma {:induction false} ReplayOwner<A>(es: seq<Event<A>>, i: nat)
    requires DistinctCodes(es)
    requires i < |es|
    ensures es[i].code in Replay(es) && Replay(es)[es[i].code] == es[i].account
  {
    var init := es[..|es| - 1];
    if i < |es| - 1 {
      assert DistinctCodes(init) by {
        forall a, b | 0 <= a < b < |init| ensures init[a].code != init[b].code {
          assert es[a] == init[a] && es[b] == init[b];
        }
      }
      ReplayOwner(init, i);
      assert es[i] == init[i];
    }
  }

  /** Distinct registrations produce one key each: the map has as many
      keys as there were `CodeRegistered` events. */
  lemma {:induction false} ReplaySize<A>(es: seq<Event<A>>)
    requires DistinctCodes(es)
    ensures |Replay(es)| == |es|
  {
    if es != [] {
      var init := es[..|es| - 1];
      var last := es[|es| - 1];
      assert DistinctCodes(init) by {
        forall a, b | 0 <= a < b < |init| ensures init[a].code != init[b].code {
          assert es[a] == init[a] && es[b] == init[b];
        }
      }
      ReplaySize(init);
      ReplayKeys(init, last.code);
      forall i | 0 <= i < |init| ensures init[i].code != last.code {
        assert init[i] == es[i];
      }
    }
  }

  /** Once a code is registered, registering it again fails with
      `AlreadyExists`. */
  lemma SecondRegistrationFails<A>(codes: map<Code, A>, codeLength: nat, code: Code, first: A)
    requires Outcome(codes, codeLength, code) == Ok
    ensures Outcome(codes[code := first], codeLength, code) == Err(AlreadyExists)
  {
  }

  /** Whether a code can be registered depends on the map only through
      whether that code itself is a key: other registrations never block it. */
  lemma OutcomeIgnoresOtherKeys<A>(codes: map<Code, A>, other: Code, a: A, codeLength: nat, code: Code)
    requires other != code
    ensures Outcome(codes[other := a], codeLength, code) == Outcome(codes, codeLength, code)
  {
  }

  /** A code of valid length holding a `-`, a space or an `_` is rejected. */
  lemma SeparatorRejected<A>(codes: map<Code, A>, codeLength: nat, code: Code, i: nat)
    requires MIN_CODE_LENGTH <= |code| <= codeLength
    requires i < |code| && (code[i] == 0x2D || code[i] == 0x20 || code[i] == 0x5F)
    ensures Outcome(codes, codeLength, code) == Err(InvalidCharacter)
  {
  }

  /** The code `abc`. */
  const LowerAbc: Code := [0x61, 0x62, 0x63]
  /** The code `ABC`. */
  const UpperAbc: Code := [0x41, 0x42, 0x43]

  /** Codes are stored verbatim: with `abc` registered, `ABC` is a different,
      still free key. */
  lemma CaseIsSignificant<A>(codeLength: nat, a: A)
    requires codeLength >= MIN_CODE_LENGTH
    ensures Outcome<A>(map[], codeLength, LowerAbc) == Ok
    ensures Outcome(map[LowerAbc := a], codeLength, UpperAbc) == Ok
  {
  }

  /** The pallet's storage: `ReferralCodes` and the events it has deposited. */
  class Pallet<A> {
    /** `T::CodeLength`, the maximum code length. */
    const codeLength: nat
    /** `ReferralCodes`: code to owning account. */
    var referralCodes: map<Code, A>
    /** Every event deposited so far, oldest first. */
    var events: seq<Event<A>>

    /** Every stored code is well formed, and the map is exactly what the
        deposited `CodeRegistered` events describe, one event per code. */
    ghost predicate Valid()
      reads this
    {
      (forall k | k in referralCodes :: WellFormed(k, codeLength))
      && DistinctCodes(events)
      && referralCodes == Replay(events)
    }

    constructor (codeLength: nat)
      ensures Valid()
      ensures this.codeLength == codeLength
      ensures referralCodes == map[] && events == []
    {
      this.codeLength := codeLength;
      referralCodes := map[];
      events := [];
    }

    /** The storage getter `referral_account`. */
    function ReferralAccount(code: Code): (r: Option<A>)
      reads this
      ensures r.Some? <==> code in referralCodes
      ensures r.Some? ==> r.value == referralCodes[code]
    {
      if code in referralCodes then Some(referralCodes[code]) else None
    }

    /** In a valid state there is one event per stored code, and each
        event names the stored owner of its code. */
    lemma EventsMatchCodes()
      requires Valid()
      ensures |referralCodes| == |events|
      ensures forall i | 0 <= i < |events| ::
        events[i].code in referralCodes && referralCodes[events[i].code] == events[i].account
    {
      ReplaySize(events);
      forall i | 0 <= i < |events|
        ensures events[i].code in referralCodes && referralCodes[events[i].code] == events[i].account
      {
        ReplayOwner(events, i);
      }
    }

    /** `register_code(origin, code, account)`. The result is the first
        failing check; on success `code` maps to `account`, the map gains
        exactly that key and one `CodeRegistered` event is appended, and on
        failure nothing changes. */
    method RegisterCode(code: Code, account: A) returns (r: DispatchResult)
      requires Valid()
      modifies this
      ensures Valid()
      ensures r == Outcome(old(referralCodes), codeLength, code)
      ensures r == Ok ==>
        referralCodes == old(referralCodes)[code := account]
        && |referralCodes| == |old(referralCodes)| + 1
        && events == old(events) + [CodeRegistered(code, account)]
      ensures r != Ok ==> referralCodes == old(referralCodes) && events == old(events)
    {
      if |code| > codeLength {
        return Err(TooLong);
      }
      if |code| < MIN_CODE_LENGTH {
        return Err(TooShort);
      }
      if !AllAlphanumeric(code) {
        return Err(InvalidCharacter);
      }
      if code in referralCodes {
        return Err(AlreadyExists);
      }
      ghost var before := events;
      ReplayKeys(before, code);
      referralCodes := referralCodes[code := account];
      events := events + [CodeRegistered(code, account)];
      assert events[..|events| - 1] == before;
      r := Ok;
    }
  }

  /** Two registrations of the same code, the second by another account:
      the second fails with `AlreadyExists` and the first owner is kept. */
  method RegisterTwice<A>(p: Pallet<A>, code: Code, first: A, second: A)
      returns (r1: DispatchResult, r2: DispatchResult)
    requires p.Valid() && Outcome(p.referralCodes, p.codeLength, code) == Ok
    modifies p
    ensures p.Valid()
    ensures r1 == Ok && r2 == Err(AlreadyExists)
    ensures p.ReferralAccount(code) == Some(first)
  {
    r1 := p.RegisterCode(code, first);
    r2 := p.RegisterCode(code, second);
  }

  /** A run against fresh storage: `abc` and `ABC` both register, a second
      `abc` is refused, `ab` is too short, `abcd` is too long for a bound of
      three, and `a-c` holds an invalid character. */
  method Scenario<A>(alice: A, bob: A) returns (r1: DispatchResult, r2: DispatchResult,
      r3: DispatchResult, r4: DispatchResult, r5: DispatchResult, r6: DispatchResult,
      owner: Option<A>)
    ensures r1 == Ok && r2 == Ok && r3 == Err(AlreadyExists)
    ensures r4 == Err(TooShort) && r5 == Err(TooLong) && r6 == Err(InvalidCharacter)
    ensures owner == Some(alice)
  {
    var p := new Pallet<A>(3);
    CaseIsSignificant(3, alice);
    r1 := p.RegisterCode(LowerAbc, alice);
    r2 := p.RegisterCode(UpperAbc, bob);
    r3 := p.RegisterCode(LowerAbc, bob);
    r4 := p.RegisterCode([0x61, 0x62], bob);
    r5 := p.RegisterCode([0x61, 0x62, 0x63, 0x64], bob);
    SeparatorRejected(p.referralCodes, 3, [0x61, 0x2D, 0x63], 1);
    r6 := p.RegisterCode([0x61, 0x2D, 0x63], bob);
    owner := p.ReferralAccount(LowerAbc);
  }
}
