/** cmd/ebrelayer/txs/parser.go: turning a LogLock event into a bridge claim. */
module Relayer {
  import opened Wrappers
  import opened Addresses
  import opened Erc20
  import opened Escrow
  import opened BridgeClaims
  import opened BridgeMachine
  import opened BridgeRuns
  import opened Consensus

  /**
   What the relayer takes from libraries: the address text form, the letter case of an address's hex digits
   (a checksum), and which amounts sdk.ParseCoins accepts.
   */
  datatype Library = Library(codec: AddressCodec, upperCase: (EthAddress, nat) -> bool, parsesAmount: nat -> bool)

  // ---------------------------------------------------------------- address.Hex()

  function Nibble(a: EthAddress, i: nat): (d: nat)
    requires i < 40
    ensures d < 16
  {
    if i % 2 == 0 then a[i / 2] / 16 else a[i / 2] % 16
  }

  function NibbleChar(d: nat, upper: bool): (c: char)
    requires d < 16
    ensures IsHexDigit(c)
  {
    if d < 10 then (48 + d) as char else if upper then (55 + d) as char else (87 + d) as char
  }

  function NibbleValue(c: char): int {
    if c <= '9' then c as int - 48 else if c <= 'F' then c as int - 55 else c as int - 87
  }

  const LOWER_DIGITS: string := "0123456789abcdef"
  const UPPER_DIGITS: string := "0123456789ABCDEF"

  lemma NibbleValues(d: nat)
    requires d < 16
    ensures NibbleValue(LOWER_DIGITS[d]) == NibbleValue(UPPER_DIGITS[d]) == d
  {
  }

  lemma NibbleCharValue(d: nat, upper: bool)
    requires d < 16
    ensures NibbleValue(NibbleChar(d, upper)) == d
  {
  }

  function Hex(lib: Library, a: EthAddress): (s: string)
    ensures |s| == 42
  {
    ['0', 'x'] + seq(40, i requires 0 <= i < 40 => NibbleChar(Nibble(a, i), lib.upperCase(a, i)))
  }

  /** The hex text of an address passes the handler's check and determines the address. */
  lemma HexIsValid(lib: Library, a: EthAddress)
    ensures IsValidEthAddress(Hex(lib, a))
  {
    var s := Hex(lib, a);
    assert StripPrefix(s) == s[2..];
    forall i | 0 <= i < 40 ensures IsHexDigit(s[2..][i]) {
      assert s[2..][i] == NibbleChar(Nibble(a, i), lib.upperCase(a, i));
    }
  }

  /** The text is 0x and, for each byte of the address in order, its high and its low hexadecimal digit. */
  predicate SpellsAddress(s: string, a: EthAddress) {
    && |s| == 42 && s[0] == '0' && s[1] == 'x'
    && forall k :: 0 <= k < 20 ==> 16 * NibbleValue(s[2 + 2 * k]) + NibbleValue(s[3 + 2 * k]) == a[k]
  }

  lemma HexSpells(lib: Library, a: EthAddress)
    ensures SpellsAddress(Hex(lib, a), a)
  {
    var s := Hex(lib, a);
    forall k | 0 <= k < 20 ensures 16 * NibbleValue(s[2 + 2 * k]) + NibbleValue(s[3 + 2 * k]) == a[k] {
      NibbleCharValue(Nibble(a, 2 * k), lib.upperCase(a, 2 * k));
      NibbleCharValue(Nibble(a, 2 * k + 1), lib.upperCase(a, 2 * k + 1));
      assert s[2 + 2 * k] == NibbleChar(Nibble(a, 2 * k), lib.upperCase(a, 2 * k));
      assert s[3 + 2 * k] == NibbleChar(Nibble(a, 2 * k + 1), lib.upperCase(a, 2 * k + 1));
    }
  }

  lemma HexInjective(lib: Library, a: EthAddress, b: EthAddress)
    requires Hex(lib, a) == Hex(lib, b)
    ensures a == b
  {
    var s := Hex(lib, a);
    forall i | 0 <= i < 40 ensures Nibble(a, i) == Nibble(b, i) {
      NibbleCharValue(Nibble(a, i), lib.upperCase(a, i));
      NibbleCharValue(Nibble(b, i), lib.upperCase(b, i));
      assert s[2..][i] == NibbleChar(Nibble(a, i), lib.upperCase(a, i));
      assert Hex(lib, b)[2..][i] == NibbleChar(Nibble(b, i), lib.upperCase(b, i));
    }
    forall k | 0 <= k < 20 ensures a[k] == b[k] {
      assert Nibble(a, 2 * k) == a[k] / 16 && Nibble(b, 2 * k) == b[k] / 16;
      assert Nibble(a, 2 * k + 1) == a[k] % 16 && Nibble(b, 2 * k + 1) == b[k] % 16;
    }
  }

  // ---------------------------------------------------------------- the claim

  /** strconv.Atoi with its error ignored: a number beyond 64 bits becomes the largest one. */
  function ClampedNonce(nonce: uint256): int {
    if nonce <= MAX_INT64 then nonce else MAX_INT64
  }

  function BytesText(b: Bytes): (s: string)
    ensures |s| == |b| && forall i :: 0 <= i < |b| ==> s[i] as int == b[i]
  {
    seq(|b|, i requires 0 <= i < |b| => b[i] as char)
  }

  /** A recipient that is not an address text becomes the empty address. */
  function Recipient(lib: Library, to: Bytes): Bytes {
    match lib.codec.accParse(BytesText(to))
    case None => []
    case Some(a) => a
  }

  /** An amount that does not parse becomes no coins. */
  function Amount(lib: Library, value: uint256): seq<Coin> {
    if lib.parsesAmount(value) then [Coin("ethereum", value)] else []
  }

  function Payload(lib: Library, validator: Bytes, e: LogEvent): EthBridgeClaim
    requires e.LogLock?
  {
    EthBridgeClaim(ClampedNonce(e.nonce), Hex(lib, e.from), Recipient(lib, e.to), validator, Amount(lib, e.value))
  }

  /**
   What a relayed claim says about its event: the event's own nonce and value unless they are out of range, a sender
   the handler accepts, and the receiver the depositor named. The handler rejects it only for an unreadable recipient.
   */
  ghost predicate Witnesses(lib: Library, validator: Bytes, e: LogEvent, claim: EthBridgeClaim)
    requires e.LogLock?
  {
    && claim.validator == validator
    && claim.nonce == (if e.nonce < 0x8000_0000_0000_0000 then e.nonce else 0x7fff_ffff_ffff_ffff)
    && SpellsAddress(claim.ethereumSender, e.from) && IsValidEthAddress(claim.ethereumSender)
    && (Rejection(claim) == None <==> claim.cosmosReceiver != [])
    && (forall a :: a != [] && BytesText(e.to) == lib.codec.accText(a) ==> claim.cosmosReceiver == a)
    && (lib.codec.accParse(BytesText(e.to)) == None ==> claim.cosmosReceiver == [])
    && 0 <= CoinTotal(claim.amount) <= e.value
    && (CoinTotal(claim.amount) == e.value <==> e.value == 0 || lib.parsesAmount(e.value))
    && CoinSum(claim.amount, "ethereum") == CoinTotal(claim.amount)
    && (forall d :: d != "ethereum" ==> CoinSum(claim.amount, d) == 0)
  }

  lemma PayloadWitnesses(lib: Library, validator: Bytes, e: LogEvent)
    requires e.LogLock?
    ensures Witnesses(lib, validator, e, Payload(lib, validator, e))
  {
    HexIsValid(lib, e.from);
    HexSpells(lib, e.from);
    AmountIsEther(lib, e.value);
  }

  /** The coins of a lock are "ethereum" and nothing else, and never more than its value. */
  lemma AmountIsEther(lib: Library, value: uint256)
    ensures 0 <= CoinTotal(Amount(lib, value)) <= value
    ensures CoinTotal(Amount(lib, value)) == value <==> value == 0 || lib.parsesAmount(value)
    ensures CoinSum(Amount(lib, value), "ethereum") == CoinTotal(Amount(lib, value))
    ensures forall d :: d != "ethereum" ==> CoinSum(Amount(lib, value), d) == 0
  {
    var amount := Amount(lib, value);
    if amount != [] {
      assert amount[1..] == [];
    }
  }

  /** Relayed claims of two events in range agree only if the events agree in all the claim speaks about. */
  lemma PayloadDetermines(lib: Library, v: Bytes, w: Bytes, e: LogEvent, f: LogEvent)
    requires e.LogLock? && f.LogLock? && Payload(lib, v, e) == Payload(lib, w, f)
    ensures v == w && e.from == f.from && Recipient(lib, e.to) == Recipient(lib, f.to)
    ensures e.nonce < MAX_INT64 ==> e.nonce == f.nonce
    ensures lib.parsesAmount(e.value) ==> e.value == f.value
  {
    HexInjective(lib, e.from, f.from);
    if lib.parsesAmount(e.value) {
      assert Amount(lib, e.value)[0] == Payload(lib, w, f).amount[0];
    }
  }

  /** The fields are filled one after the other; errors are noted and ignored. */
  method ParsePayload(lib: Library, validator: Bytes, event: LogEvent) returns (witnessClaim: EthBridgeClaim)
    requires event.LogLock?
    ensures Witnesses(lib, validator, event, witnessClaim)
    ensures witnessClaim == Payload(lib, validator, event)
  {
    witnessClaim := EthBridgeClaim(0, "", [], [], []);
    var nonce := event.nonce;
    if nonce > MAX_INT64 {
      nonce := MAX_INT64;
    }
    witnessClaim := witnessClaim.(nonce := nonce);
    witnessClaim := witnessClaim.(ethereumSender := Hex(lib, event.from));
    var recipient := lib.codec.accParse(BytesText(event.to));
    if recipient.Some? {
      witnessClaim := witnessClaim.(cosmosReceiver := recipient.value);
    }
    witnessClaim := witnessClaim.(validator := validator);
    if lib.parsesAmount(event.value) {
      witnessClaim := witnessClaim.(amount := [Coin("ethereum", event.value)]);
    }
    PayloadWitnesses(lib, validator, event);
  }

  /** The prophecy that honest relayers vote on for a lock event. */
  function LockId(lib: Library, e: LogEvent): string
    requires e.LogLock?
  {
    OracleId(ClampedNonce(e.nonce), Hex(lib, e.from))
  }

  /** Two lock events share a prophecy exactly when they have the same sender and the same nonce after clamping. */
  lemma SharedPropheciesExactly(lib: Library, e: LogEvent, f: LogEvent)
    requires e.LogLock? && f.LogLock?
    ensures LockId(lib, e) == LockId(lib, f) <==> e.from == f.from && ClampedNonce(e.nonce) == ClampedNonce(f.nonce)
  {
    if LockId(lib, e) == LockId(lib, f) {
      HexIsValid(lib, e.from);
      HexIsValid(lib, f.from);
      OracleIdInjective(ClampedNonce(e.nonce), Hex(lib, e.from), ClampedNonce(f.nonce), Hex(lib, f.from));
      HexInjective(lib, e.from, f.from);
    }
  }
}
