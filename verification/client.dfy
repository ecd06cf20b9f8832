/** The client side of a transfer: the pre-checks a client runs before it
    submits, the canonical string it builds, and what the server then does
    with it. The client's back-pointer to its server is the `l` argument. */
module ClientSide {
  import opened Common
  import opened Amounts
  import opened Transactions
  import opened Accounts
  import Server

  /** `Client::get_wallet`: the server's `get_wallet` on the client's own
      id, so it throws when the client is not registered. */
  function GetWallet(l: Server.Ledger, c: Client): (r: Result<real>)
    ensures r.Failure? <==> !Server.Holds(l.entries, c.id)
    ensures r.Failure? ==> r.error == IdNotExist
    ensures r.Success? ==> exists i :: Server.FirstWith(l.entries, i, c.id) && r.value == l.entries[i].balance
  {
    Server.GetWallet(l, GetId(c))
  }

  /** `Client::transfer_money`. It refuses (false, nothing submitted) when
      its own balance is below `value` or the receiver is unknown; otherwise
      it signs the canonical string and returns what the server's admission
      returns. It never changes a balance itself. */
  function TransferMoney(l: Server.Ledger, c: Client, receiver: string, value: real, crypto: Crypto)
    : (r: Result<Server.Submission>)
    ensures !Server.Holds(l.entries, c.id) ==> r == Failure(IdNotExist)
    ensures r.Success? ==> r.value.ledger.entries == l.entries
    ensures r.Success? && !r.value.accepted ==> r.value.ledger == l
    ensures r.Success? && r.value.accepted ==> r.value.ledger.pending == l.pending + [Encode(c.id, receiver, value)]
    ensures Server.Holds(l.entries, c.id) && GetWallet(l, c).value < value ==> r == Success(Server.Submission(false, l))
    ensures Server.Holds(l.entries, c.id) && !Server.Holds(l.entries, receiver) ==> r == Success(Server.Submission(false, l))
    ensures Server.Holds(l.entries, c.id) && GetWallet(l, c).value >= value && Server.Holds(l.entries, receiver)
            ==> r == Server.AddPendingTrx(l, Encode(c.id, receiver, value), Sign(c, crypto, Encode(c.id, receiver, value)), crypto)
  {
    match GetWallet(l, c)
    case Failure(e) => Failure(e)
    case Success(balance) =>
      if balance < value then Success(Server.Submission(false, l))
      else if Server.GetClient(l, receiver).None? then Success(Server.Submission(false, l))
      else
        var trx := Encode(GetId(c), receiver, value);
        Server.AddPendingTrx(l, trx, Sign(c, crypto, trx), crypto)
  }

  /** A negative amount passes both client checks (when the balance covers
      it) but is printed with a '-', which splits into a fourth field: the
      server throws instead of returning false. */
  lemma NegativeTransferThrows(l: Server.Ledger, c: Client, receiver: string, value: real, crypto: Crypto)
    requires value < 0.0
    requires Server.Holds(l.entries, c.id) && Server.Holds(l.entries, receiver)
    requires GetWallet(l, c).value >= value
    ensures TransferMoney(l, c, receiver, value, crypto) == Failure(IllegalTrxFormat)
  {
    EncodedParsesIff(c.id, receiver, value);
  }

  /** Likewise when either id contains a '-': the transfer cannot go through. */
  lemma HyphenatedIdThrows(l: Server.Ledger, c: Client, receiver: string, value: real, crypto: Crypto)
    requires !NoHyphen(c.id) || !NoHyphen(receiver)
    requires Server.Holds(l.entries, c.id) && Server.Holds(l.entries, receiver)
    requires GetWallet(l, c).value >= value
    ensures TransferMoney(l, c, receiver, value, crypto) == Failure(IllegalTrxFormat)
  {
    EncodedParsesIff(c.id, receiver, value);
  }

  /** The ordinary case. With hyphen-free ids, a non-negative amount, both
      parties registered, the client being the registered account for its
      id, and a signature that verifies, the transfer is admitted exactly
      when the balance covers the amount as printed (rounded to millionths)
      and not merely the amount the client checked. */
  lemma TransferAdmitted(l: Server.Ledger, c: Client, receiver: string, value: real, crypto: Crypto, i: nat)
    requires NoHyphen(c.id) && NoHyphen(receiver) && value >= 0.0
    requires Server.FirstWith(l.entries, i, c.id) && l.entries[i].client == c
    requires Server.Holds(l.entries, receiver)
    requires l.entries[i].balance >= value
    requires crypto.verify(c.publicKey, Encode(c.id, receiver, value), Sign(c, crypto, Encode(c.id, receiver, value)))
    ensures TransferMoney(l, c, receiver, value, crypto).Success?
    ensures TransferMoney(l, c, receiver, value, crypto).value.accepted <==> l.entries[i].balance >= Rounded(value)
  {
    var trx := Encode(c.id, receiver, value);
    var signature := Sign(c, crypto, trx);
    assert GetWallet(l, c) == Success(l.entries[i].balance);
    assert TransferMoney(l, c, receiver, value, crypto) == Server.AddPendingTrx(l, trx, signature, crypto);
    ParseEncoded(c.id, receiver, value);
    var t := Trx(c.id, receiver, Rounded(value));
    if l.entries[i].balance >= Rounded(value) {
      assert Server.Admissible(l, t, trx, signature, crypto);
    }
  }

  /** A transfer keeps the ledger valid. */
  lemma TransferKeepsValid(l: Server.Ledger, c: Client, receiver: string, value: real, crypto: Crypto)
    requires Server.Valid(l)
    ensures TransferMoney(l, c, receiver, value, crypto).Success? ==>
            Server.Valid(TransferMoney(l, c, receiver, value, crypto).value.ledger)
  {
  }

  /** End to end: from a valid ledger with an empty pool, an admitted
      transfer of a whole number of millionths between two distinct
      accounts, followed by a successful mine, moves exactly `value` from
      sender to receiver, on top of the reward for whichever of them won. */
  lemma TransferThenMine(
    l: Server.Ledger, c: Client, receiver: string, value: real, micros: int,
    crypto: Crypto, nonces: seq<Server.Nonce>, a: nat, b: nat)
    requires Server.Valid(l) && l.pending == []
    requires NoHyphen(c.id) && NoHyphen(receiver) && value >= 0.0 && value * 1000000.0 == micros as real
    requires a < |l.entries| && l.entries[a].client == c
    requires b < |l.entries| && l.entries[b].client.id == receiver && a != b
    requires l.entries[a].balance >= value
    requires crypto.verify(c.publicKey, Encode(c.id, receiver, value), Sign(c, crypto, Encode(c.id, receiver, value)))
    ensures TransferMoney(l, c, receiver, value, crypto).Success?
    ensures TransferMoney(l, c, receiver, value, crypto).value.accepted
    ensures var l1 := TransferMoney(l, c, receiver, value, crypto).value.ledger;
            var m := Server.Mine(l1, crypto, nonces);
            m.Mined? ==>
              && m.ledger.entries[a].balance
                 == l.entries[a].balance - value + (if m.winner == a then Server.MiningReward else 0.0)
              && m.ledger.entries[b].balance
                 == l.entries[b].balance + value + (if m.winner == b then Server.MiningReward else 0.0)
  {
    Server.FirstWithUnique(l.entries, a, c.id);
    RoundedExact(value, micros);
    TransferAdmitted(l, c, receiver, value, crypto, a);
    TransferKeepsValid(l, c, receiver, value, crypto);
    var trx := Encode(c.id, receiver, value);
    var l1 := TransferMoney(l, c, receiver, value, crypto).value.ledger;
    assert l1.pending == [trx] && l1.entries == l.entries;
    ParseEncoded(c.id, receiver, value);
    assert Server.Net([trx], c.id) == -value;
    assert Server.Net([trx], receiver) == value;
    if Server.Mine(l1, crypto, nonces).Mined? {
      Server.MineBalances(l1, crypto, nonces);
    }
  }
}
