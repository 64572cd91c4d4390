/** x/ethbridge/types: bridge claims, their oracle id and their claim text. */
module BridgeClaims {
  import opened Wrappers
  import opened Addresses
  import opened Json
  import opened Text

  datatype Coin = Coin(denom: string, amount: int)

  datatype OracleClaim = OracleClaim(cosmosReceiver: Bytes, amount: seq<Coin>)

  datatype EthBridgeClaim = EthBridgeClaim(
    nonce: int,
    ethereumSender: string,
    cosmosReceiver: Bytes,
    validator: Bytes,
    amount: seq<Coin>)

  // ---------------------------------------------------------------- JSON form of a claim

  function CoinJson(coin: Coin): Json {
    Obj([Member("denom", Str(coin.denom)), Member("amount", Str(Itoa(coin.amount)))])
  }

  function CoinItems(coins: seq<Coin>): (items: seq<Json>)
    ensures |items| == |coins|
  {
    if coins == [] then [] else [CoinJson(coins[0])] + CoinItems(coins[1..])
  }

  /** A nil coin list prints as null. */
  function CoinsJson(coins: seq<Coin>): Json {
    if coins == [] then Null else Arr(CoinItems(coins))
  }

  function ClaimJson(codec: AddressCodec, claim: OracleClaim): Json {
    Obj([Member("cosmos_receiver", Str(codec.accText(claim.cosmosReceiver))),
         Member("amount", CoinsJson(claim.amount))])
  }

  function ClaimText(codec: AddressCodec, claim: OracleClaim): (s: string)
    ensures s != ""
  {
    Print(ClaimJson(codec, claim))
  }

  /** The value of the last member with this name: a later duplicate overrides an earlier one. */
  function Field(members: seq<Member>, key: string): Option<Json> {
    if members == [] then None
    else if members[|members| - 1].key == key then Some(members[|members| - 1].value)
    else Field(members[..|members| - 1], key)
  }

  function CoinFromJson(j: Json): Option<Coin> {
    if !j.Obj? then None
    else match (Field(j.members, "denom"), Field(j.members, "amount"))
      case (Some(Str(denom)), Some(Str(amount))) =>
        (match ParseInt(amount)
         case None => None
         case Some(n) => Some(Coin(denom, n)))
      case _ => None
  }

  function CoinsFromItems(items: seq<Json>): Option<seq<Coin>> {
    if items == [] then Some([])
    else match (CoinFromJson(items[0]), CoinsFromItems(items[1..]))
      case (Some(coin), Some(coins)) => Some([coin] + coins)
      case _ => None
  }

  function CoinsFromJson(j: Option<Json>): Option<seq<Coin>> {
    match j
    case None => Some([])
    case Some(Null) => Some([])
    case Some(Arr(items)) => CoinsFromItems(items)
    case _ => None
  }

  /** A missing receiver stays empty; a present one must be a valid address text. */
  function ReceiverFromJson(codec: AddressCodec, j: Option<Json>): Option<Bytes> {
    match j
    case None => Some([])
    case Some(Str(text)) => codec.accParse(text)
    case _ => None
  }

  function ClaimFromJson(codec: AddressCodec, j: Json): Option<OracleClaim> {
    if j.Null? then Some(OracleClaim([], []))
    else if !j.Obj? then None
    else match (ReceiverFromJson(codec, Field(j.members, "cosmos_receiver")), CoinsFromJson(Field(j.members, "amount")))
      case (Some(receiver), Some(amount)) => Some(OracleClaim(receiver, amount))
      case _ => None
  }

  // ---------------------------------------------------------------- the functions of ethbridgeclaim.go

  function OracleId(nonce: int, ethereumSender: string): string {
    Itoa(nonce) + ethereumSender
  }

  function CreateOracleClaimFromEthClaim(codec: AddressCodec, claim: EthBridgeClaim): (r: (string, Bytes, string))
  {
    (OracleId(claim.nonce, claim.ethereumSender),
     claim.validator,
     ClaimText(codec, OracleClaim(claim.cosmosReceiver, claim.amount)))
  }

  function CreateOracleClaimFromOracleString(codec: AddressCodec, s: string): Option<OracleClaim> {
    match Parse(s)
    case None => None
    case Some(j) => ClaimFromJson(codec, j)
  }

  function CreateEthClaimFromOracleString(
    codec: AddressCodec, nonce: int, ethereumSender: string, validator: Bytes, s: string): Option<EthBridgeClaim>
  {
    match CreateOracleClaimFromOracleString(codec, s)
    case None => None
    case Some(c) => Some(EthBridgeClaim(nonce, ethereumSender, c.cosmosReceiver, validator, c.amount))
  }

  // ---------------------------------------------------------------- round trips

  lemma CoinRoundTrip(coin: Coin)
    ensures CoinFromJson(CoinJson(coin)) == Some(coin)
  {
    var members := CoinJson(coin).members;
    assert members[..1] == [members[0]];
    assert Field(members[..1], "denom") == Some(Str(coin.denom));
    ItoaParses(coin.amount);
  }

  lemma {:induction false} CoinItemsRoundTrip(coins: seq<Coin>)
    ensures CoinsFromItems(CoinItems(coins)) == Some(coins)
  {
    if coins != [] {
      CoinRoundTrip(coins[0]);
      CoinItemsRoundTrip(coins[1..]);
      assert CoinItems(coins)[1..] == CoinItems(coins[1..]);
      assert [coins[0]] + coins[1..] == coins;
    }
  }

  /** Parsing a printed claim returns the claim, for every receiver the handler accepts and every coin list. */
  lemma ClaimRoundTrip(codec: AddressCodec, claim: OracleClaim)
    requires claim.cosmosReceiver != []
    ensures CreateOracleClaimFromOracleString(codec, ClaimText(codec, claim)) == Some(claim)
  {
    PrintParses(ClaimJson(codec, claim));
    CoinItemsRoundTrip(claim.amount);
    var members := ClaimJson(codec, claim).members;
    assert members[..1] == [members[0]];
    assert Field(members[..1], "cosmos_receiver") == Some(members[0].value);
    assert codec.accParse(codec.accText(claim.cosmosReceiver)) == Some(claim.cosmosReceiver);
  }

  lemma ClaimTextInjective(codec: AddressCodec, a: OracleClaim, b: OracleClaim)
    requires a.cosmosReceiver != [] && b.cosmosReceiver != []
    requires ClaimText(codec, a) == ClaimText(codec, b)
    ensures a == b
  {
    ClaimRoundTrip(codec, a);
    ClaimRoundTrip(codec, b);
  }

  // ---------------------------------------------------------------- oracle ids

  lemma ValidSenderShape(s: string)
    requires IsValidEthAddress(s)
    ensures |s| == 40 || (|s| == 42 && (s[1] == 'x' || s[1] == 'X'))
  {
  }

  /** For the nonces and senders the handler accepts, the id determines both. */
  lemma OracleIdInjective(n: int, s: string, m: int, t: string)
    requires 0 <= n && 0 <= m && IsValidEthAddress(s) && IsValidEthAddress(t)
    requires OracleId(n, s) == OracleId(m, t)
    ensures n == m && s == t
  {
    ValidSenderShape(s);
    ValidSenderShape(t);
    var id := OracleId(n, s);
    if |s| == |t| {
      assert s == id[|id| - |s|..] == t;
      assert Itoa(n) == id[..|id| - |s|] == Itoa(m);
      ItoaParses(n);
      ItoaParses(m);
    } else if |s| == 40 {
      PrefixIsNoDigit(n, s, m, t);
    } else {
      PrefixIsNoDigit(m, t, n, s);
    }
  }

  lemma PrefixIsNoDigit(n: int, s: string, m: int, t: string)
    requires 0 <= n && 0 <= m && |s| == 40 && |t| == 42 && (t[1] == 'x' || t[1] == 'X')
    ensures OracleId(n, s) != OracleId(m, t)
  {
    var id := OracleId(n, s);
    if |id| == |OracleId(m, t)| {
      assert id[|id| - 41] == NatText(n)[|NatText(n)| - 1];
      assert OracleId(m, t)[|id| - 41] == t[1];
    }
  }

  /** The id is the decimal nonce followed by the sender as it was sent. */
  lemma OracleIdLayout(n: int, s: string)
    requires 0 <= n && IsValidEthAddress(s)
    ensures
      var id := OracleId(n, s);
      |s| < |id| && id[|id| - |s|..] == s && ParseNat(id[..|id| - |s|]) == Some(n) && id[..|id| - |s|] == Itoa(n)
  {
    var id := OracleId(n, s);
    assert id[|id| - |s|..] == s && id[..|id| - |s|] == NatText(n);
    NatTextParses(n);
  }

  // ---------------------------------------------------------------- the exact text of a claim

  /** A JSON object of two members with these names and these texts as values. */
  function TwoFields(name1: string, text1: string, name2: string, text2: string): string {
    "{" + ((Quote(name1) + (":" + text1)) + ("," + ((Quote(name2) + (":" + text2)) + "}")))
  }

  lemma ObjectOfTwo(name1: string, v1: Json, name2: string, v2: Json)
    ensures Print(Obj([Member(name1, v1), Member(name2, v2)])) == TwoFields(name1, Print(v1), name2, Print(v2))
  {
    var first, second := Member(name1, v1), Member(name2, v2);
    var members := [first, second];
    assert members[1..] == [second];
    assert PrintMembers([second]) == PrintMember(second) + "}";
    assert PrintMembers(members) == PrintMember(first) + ("," + PrintMembers([second]));
    assert Print(Obj(members)) == "{" + PrintMembers(members);
  }

  lemma CoinTextForm(coin: Coin)
    ensures Print(CoinJson(coin)) == TwoFields("denom", Quote(coin.denom), "amount", Quote(Itoa(coin.amount)))
  {
    ObjectOfTwo("denom", Str(coin.denom), "amount", Str(Itoa(coin.amount)));
  }

  lemma CoinListForm(coin: Coin)
    ensures Print(CoinsJson([])) == "null"
    ensures Print(CoinsJson([coin])) == "[" + (Print(CoinJson(coin)) + "]")
  {
    assert CoinsJson([coin]) == Arr([CoinJson(coin)]);
    assert PrintItems([CoinJson(coin)]) == Print(CoinJson(coin)) + "]";
  }

  /** A claim is an object of its receiver's address text and its coin list, under these names and in this order. */
  lemma ClaimTextForm(codec: AddressCodec, claim: OracleClaim)
    ensures ClaimText(codec, claim) ==
              TwoFields("cosmos_receiver", Quote(codec.accText(claim.cosmosReceiver)),
                        "amount", Print(CoinsJson(claim.amount)))
  {
    ObjectOfTwo("cosmos_receiver", Str(codec.accText(claim.cosmosReceiver)), "amount", CoinsJson(claim.amount));
  }
}
