/** The server's ledger: the account registry with balances, the pool of
    admitted but unsettled transfers, admission of new transfers, and
    mining, which credits the miner and settles the pool. Every operation
    is a pure function from the old ledger to a result and a new ledger. */
module Server {
  import opened Common
  import opened Decimal
  import opened Amounts
  import opened Transactions
  import opened ProofOfWork
  import opened Accounts

  /** Balance of a freshly registered account. */
  const InitialBalance: real := 5.0
  /** Amount credited to the account whose nonce met the target. */
  const MiningReward: real := 6.25
  /** Candidate ids tried by `AddClient`: the requested one and four suffixed ones. */
  const RetryTime: nat := 5

  datatype Entry = Entry(client: Client, balance: real)

  /** The registry in registration order, and the pending pool in admission order. */
  datatype Ledger = Ledger(entries: seq<Entry>, pending: seq<string>)

  /** `Server::Server`: no accounts and nothing pending. */
  function NewServer(): (l: Ledger)
    ensures l.entries == [] && l.pending == []
    ensures Valid(l) && Total(l.entries) == 0.0
  {
    Ledger([], [])
  }

  // ----- Lookup -----

  /** Some account of `entries` has this id. */
  predicate Holds(entries: seq<Entry>, id: string) {
    exists i :: 0 <= i < |entries| && entries[i].client.id == id
  }

  /** `i` is where a front-to-back search for `id` stops. */
  predicate FirstWith(entries: seq<Entry>, i: int, id: string) {
    && 0 <= i < |entries|
    && entries[i].client.id == id
    && forall j :: 0 <= j < i ==> entries[j].client.id != id
  }

  predicate UniqueIds(entries: seq<Entry>) {
    forall i, j :: 0 <= i < j < |entries| ==> entries[i].client.id != entries[j].client.id
  }

  /** `std::find_if` over the registry comparing ids, from position `k`. */
  function FindFrom(entries: seq<Entry>, id: string, k: nat): (r: Option<nat>)
    requires k <= |entries|
    ensures r.Some? ==> k <= r.value < |entries| && entries[r.value].client.id == id
    ensures r.Some? ==> forall j :: k <= j < r.value ==> entries[j].client.id != id
    ensures r.None? ==> forall j :: k <= j < |entries| ==> entries[j].client.id != id
    decreases |entries| - k
  {
    if k == |entries| then None
    else if entries[k].client.id == id then Some(k)
    else FindFrom(entries, id, k + 1)
  }

  function Find(entries: seq<Entry>, id: string): (r: Option<nat>)
    ensures r.Some? <==> Holds(entries, id)
    ensures r.Some? ==> FirstWith(entries, r.value, id)
  {
    FindFrom(entries, id, 0)
  }

  /** With unique ids the first account with an id is the only one. */
  lemma FirstWithUnique(entries: seq<Entry>, i: int, id: string)
    requires UniqueIds(entries)
    ensures FirstWith(entries, i, id) <==> 0 <= i < |entries| && entries[i].client.id == id
  {
  }

  /** `Server::get_wallet`: the balance of the first account with this id;
      throws when there is none. */
  function GetWallet(l: Ledger, id: string): (r: Result<real>)
    ensures r.Failure? <==> !Holds(l.entries, id)
    ensures r.Failure? ==> r.error == IdNotExist
    ensures r.Success? ==> exists i :: FirstWith(l.entries, i, id) && r.value == l.entries[i].balance
  {
    match Find(l.entries, id)
    case None => Failure(IdNotExist)
    case Some(i) => Success(l.entries[i].balance)
  }

  /** `Server::get_client`: the first account with this id; null (None)
      rather than an exception when there is none. */
  function GetClient(l: Ledger, id: string): (r: Option<Client>)
    ensures r.None? <==> !Holds(l.entries, id)
    ensures r.Some? ==> exists i :: FirstWith(l.entries, i, id) && r.value == l.entries[i].client
  {
    match Find(l.entries, id)
    case None => None
    case Some(i) => Some(l.entries[i].client)
  }

  // ----- Invariant -----

  /** What admission guarantees of a pooled transfer and settlement relies
      on: it parses, and both parties are registered. */
  predicate Settleable(entries: seq<Entry>, trx: string) {
    && ParseTrx(trx).Success?
    && Holds(entries, ParseTrx(trx).value.sender)
    && Holds(entries, ParseTrx(trx).value.receiver)
  }

  predicate PoolSettleable(entries: seq<Entry>, pending: seq<string>) {
    forall k :: 0 <= k < |pending| ==> Settleable(entries, pending[k])
  }

  /** Ids are unique and every pooled transfer can be settled. */
  predicate Valid(l: Ledger) {
    UniqueIds(l.entries) && PoolSettleable(l.entries, l.pending)
  }

  /** Two registries with the same accounts in the same order, balances aside. */
  predicate SameClients(a: seq<Entry>, b: seq<Entry>) {
    |a| == |b| && forall i :: 0 <= i < |a| ==> a[i].client == b[i].client
  }

  lemma SameClientsHolds(a: seq<Entry>, b: seq<Entry>, id: string)
    requires SameClients(a, b)
    ensures Holds(a, id) <==> Holds(b, id)
  {
  }

  // ----- Registration -----

  /** One chunk of a retry suffix: `std::to_string('a' + draw % 26)`. The
      char is promoted to an integer, so the chunk is the decimal code of a
      letter ("97" to "122"), not the letter itself. */
  function SuffixChunk(draw: nat): (s: string)
    ensures AllDigits(s) && 2 <= |s| <= 3
    ensures Value(s) == 'a' as nat + draw % 26
  {
    var code := 'a' as nat + draw % 26;
    NatToStringLength(code);
    NatToString(code)
  }

  lemma NatToStringLength(n: nat)
    requires 97 <= n <= 122
    ensures 2 <= |NatToString(n)| <= 3
  {
  }

  /** The suffix of retry `attempt` (1 to 4): four chunks made from the
      generator's draws 4*(attempt-1) to 4*attempt-1. `rng(k)` is the
      value of the generator's k-th draw. */
  function Suffix(rng: nat -> nat, attempt: nat): (s: string)
    requires attempt >= 1
    ensures AllDigits(s) && 8 <= |s| <= 12
  {
    var k := 4 * (attempt - 1);
    SuffixChunk(rng(k)) + SuffixChunk(rng(k + 1)) + SuffixChunk(rng(k + 2)) + SuffixChunk(rng(k + 3))
  }

  /** The id tried on a given attempt: the requested id first, then with a suffix. */
  function Candidate(id: string, rng: nat -> nat, attempt: nat): string {
    if attempt == 0 then id else id + Suffix(rng, attempt)
  }

  datatype Registration = Registration(ledger: Ledger, client: Client)

  /** The ids `Server::add_client` tries, in order: the requested id
      itself, then four times the requested id followed by 8 to 12 digits. */
  function Candidates(id: string, rng: nat -> nat): (cs: seq<string>)
    ensures |cs| == RetryTime
    ensures cs[0] == id
    ensures forall a :: 1 <= a < RetryTime ==>
              && |id| + 8 <= |cs[a]| <= |id| + 12
              && cs[a][..|id|] == id
              && AllDigits(cs[a][|id|..])
    ensures forall a :: 0 <= a < RetryTime ==> cs[a] == Candidate(id, rng, a)
  {
    seq(RetryTime, a requires 0 <= a => Candidate(id, rng, a))
  }

  /** The retry loop of `Server::add_client` from position `k` on: the
      first candidate id no account has yet. */
  function FirstFree(entries: seq<Entry>, cs: seq<string>, k: nat): (r: Option<nat>)
    requires k <= |cs|
    ensures r.Some? ==> k <= r.value < |cs| && !Holds(entries, cs[r.value])
    ensures r.Some? ==> forall b :: k <= b < r.value ==> Holds(entries, cs[b])
    ensures r.None? ==> forall b :: k <= b < |cs| ==> Holds(entries, cs[b])
    decreases |cs| - k
  {
    if k == |cs| then None
    else if Find(entries, cs[k]).None? then Some(k)
    else FirstFree(entries, cs, k + 1)
  }

  /** `Server::add_client`. The requested id is used verbatim when it is
      free; otherwise the first free of the four suffixed candidates is.
      The new account starts with 5.0. When all five candidates are taken
      it throws and registers nothing. */
  function AddClient(l: Ledger, id: string, rng: nat -> nat, keys: (string, string)): (r: Result<Registration>)
    ensures !Holds(l.entries, id) ==> r.Success? && r.value.client.id == id
    ensures r.Failure? <==> forall a :: 0 <= a < RetryTime ==> Holds(l.entries, Candidate(id, rng, a))
    ensures r.Failure? ==> r.error == IdConflict
    ensures r.Success? ==>
      && !Holds(l.entries, r.value.client.id)
      && r.value.client == NewClient(r.value.client.id, keys)
      && r.value.ledger == Ledger(l.entries + [Entry(r.value.client, InitialBalance)], l.pending)
      && exists a :: 0 <= a < RetryTime && r.value.client.id == Candidate(id, rng, a)
                     && forall b :: 0 <= b < a ==> Holds(l.entries, Candidate(id, rng, b))
  {
    var cs := Candidates(id, rng);
    match FirstFree(l.entries, cs, 0)
    case None => Failure(IdConflict)
    case Some(a) =>
      var c := NewClient(cs[a], keys);
      Success(Registration(Ledger(l.entries + [Entry(c, InitialBalance)], l.pending), c))
  }

  /** Registration keeps ids unique and the pool settleable. */
  lemma AddClientKeepsValid(l: Ledger, id: string, rng: nat -> nat, keys: (string, string))
    requires Valid(l)
    ensures AddClient(l, id, rng, keys).Success? ==> Valid(AddClient(l, id, rng, keys).value.ledger)
  {
    var r := AddClient(l, id, rng, keys);
    if r.Success? {
      var l' := r.value.ledger;
      forall k | 0 <= k < |l'.pending|
        ensures Settleable(l'.entries, l'.pending[k])
      {
        assert Settleable(l.entries, l.pending[k]);
        var t := ParseTrx(l.pending[k]).value;
        HoldsAfterAppend(l.entries, Entry(r.value.client, InitialBalance), t.sender);
        HoldsAfterAppend(l.entries, Entry(r.value.client, InitialBalance), t.receiver);
      }
    }
  }

  lemma HoldsAfterAppend(entries: seq<Entry>, e: Entry, id: string)
    requires Holds(entries, id)
    ensures Holds(entries + [e], id)
  {
    var i :| 0 <= i < |entries| && entries[i].client.id == id;
    assert (entries + [e])[i] == entries[i];
  }

  // ----- Admission -----

  datatype Submission = Submission(accepted: bool, ledger: Ledger)

  /** The admission checks, stated over the registry directly: a
      non-negative value, a registered receiver, and a sender whose first
      registry entry verifies the signature over the exact string and holds
      at least the value. Amounts already pending are not counted. */
  predicate Admissible(l: Ledger, t: Trx, trx: string, signature: string, crypto: Crypto) {
    && t.value >= 0.0
    && Holds(l.entries, t.receiver)
    && exists i :: 0 <= i < |l.entries| && FirstWith(l.entries, i, t.sender)
                   && crypto.verify(l.entries[i].client.publicKey, trx, signature)
                   && l.entries[i].balance >= t.value
  }

  /** `Server::add_pending_trx`. A malformed string throws (the parse never
      returns false). Otherwise the transfer is admitted, appended at the
      end of the pool, exactly when it is admissible; a rejection returns
      false and changes nothing. No balance changes either way. */
  function AddPendingTrx(l: Ledger, trx: string, signature: string, crypto: Crypto): (r: Result<Submission>)
    ensures r.Failure? <==> ParseTrx(trx).Failure?
    ensures r.Failure? ==> r.error == ParseTrx(trx).error
    ensures r.Success? ==> r.value.ledger.entries == l.entries
    ensures r.Success? ==> (r.value.accepted <==> Admissible(l, ParseTrx(trx).value, trx, signature, crypto))
    ensures r.Success? && r.value.accepted ==> r.value.ledger.pending == l.pending + [trx]
    ensures r.Success? && !r.value.accepted ==> r.value.ledger == l
  {
    match ParseTrx(trx)
    case Failure(e) => Failure(e)
    case Success(t) =>
      var reject := Success(Submission(false, l));
      if t.value < 0.0 then reject
      else
        var sender := GetClient(l, t.sender);
        var receiver := GetClient(l, t.receiver);
        if sender.None? || receiver.None? then reject
        else if !crypto.verify(sender.value.publicKey, trx, signature) then reject
        else
          match GetWallet(l, sender.value.id)
          case Failure(e) => Failure(e)
          case Success(balance) =>
            if balance < t.value then reject
            else Success(Submission(true, Ledger(l.entries, l.pending + [trx])))
  }

  /** Admission keeps the ledger valid. */
  lemma AddPendingTrxKeepsValid(l: Ledger, trx: string, signature: string, crypto: Crypto)
    requires Valid(l)
    ensures AddPendingTrx(l, trx, signature, crypto).Success? ==>
            Valid(AddPendingTrx(l, trx, signature, crypto).value.ledger)
  {
  }

  /** Admission reads balances but not the pool: whatever is already
      pending, the same transfer is admitted or rejected alike. So several
      admitted transfers may together exceed the sender's balance. */
  lemma AdmissionIgnoresPool(l: Ledger, pool: seq<string>, trx: string, signature: string, crypto: Crypto)
    requires AddPendingTrx(l, trx, signature, crypto).Success?
    ensures AddPendingTrx(l.(pending := pool), trx, signature, crypto).Success?
    ensures AddPendingTrx(l.(pending := pool), trx, signature, crypto).value.accepted
         == AddPendingTrx(l, trx, signature, crypto).value.accepted
  {
  }

  /** Consequently a signed transfer, once admitted, is admitted again when
      submitted a second time: the pool then holds it twice, whatever the
      sender's balance. */
  lemma AdmitsReplay(l: Ledger, trx: string, signature: string, crypto: Crypto)
    requires AddPendingTrx(l, trx, signature, crypto).Success?
    requires AddPendingTrx(l, trx, signature, crypto).value.accepted
    ensures var l1 := AddPendingTrx(l, trx, signature, crypto).value.ledger;
            && AddPendingTrx(l1, trx, signature, crypto).Success?
            && AddPendingTrx(l1, trx, signature, crypto).value.accepted
            && AddPendingTrx(l1, trx, signature, crypto).value.ledger.pending == l.pending + [trx, trx]
  {
    var l1 := AddPendingTrx(l, trx, signature, crypto).value.ledger;
    assert l1 == l.(pending := l.pending + [trx]);
    AdmissionIgnoresPool(l, l.pending + [trx], trx, signature, crypto);
    assert l.pending + [trx] + [trx] == l.pending + [trx, trx];
  }

  // ----- Mining -----

  /** A nonce is a `size_t`. */
  type Nonce = n: nat | n < 0x1_0000_0000_0000_0000

  /** The memo pool: the pending strings concatenated in pool order. */
  function MemoPool(pending: seq<string>): string {
    if |pending| == 0 then "" else MemoPool(pending[..|pending| - 1]) + pending[|pending| - 1]
  }

  /** The hash of the memo pool followed by the decimal nonce meets the target. */
  predicate Wins(memo: string, crypto: Crypto, nonce: Nonce) {
    MeetsTarget(crypto.sha256(memo + NatToString(nonce)))
  }

  /** The first winning draw at or after position `k`. */
  function Search(memo: string, crypto: Crypto, nonces: seq<Nonce>, k: nat): (r: Option<nat>)
    requires k <= |nonces|
    ensures r.Some? ==> k <= r.value < |nonces| && Wins(memo, crypto, nonces[r.value])
    ensures r.Some? ==> forall j :: k <= j < r.value ==> !Wins(memo, crypto, nonces[j])
    ensures r.None? ==> forall j :: k <= j < |nonces| ==> !Wins(memo, crypto, nonces[j])
    decreases |nonces| - k
  {
    if k == |nonces| then None
    else if Wins(memo, crypto, nonces[k]) then Some(k)
    else Search(memo, crypto, nonces, k + 1)
  }

  /** Sum of all balances. */
  function Total(entries: seq<Entry>): real {
    if |entries| == 0 then 0.0 else Total(entries[..|entries| - 1]) + entries[|entries| - 1].balance
  }

  /** Account `i` with `delta` added to its balance. */
  function Credit(entries: seq<Entry>, i: nat, delta: real): (r: seq<Entry>)
    requires i < |entries|
    ensures SameClients(entries, r)
    ensures r[i].balance == entries[i].balance + delta
    ensures forall j :: 0 <= j < |entries| && j != i ==> r[j] == entries[j]
    ensures Total(r) == Total(entries) + delta
  {
    TotalCredit(entries, i, delta);
    entries[i := entries[i].(balance := entries[i].balance + delta)]
  }

  lemma {:induction false} TotalCredit(entries: seq<Entry>, i: nat, delta: real)
    requires i < |entries|
    ensures Total(entries[i := entries[i].(balance := entries[i].balance + delta)]) == Total(entries) + delta
    decreases |entries|
  {
    var r := entries[i := entries[i].(balance := entries[i].balance + delta)];
    var n := |entries| - 1;
    if i == n {
      assert r[..n] == entries[..n];
    } else {
      assert r[..n] == entries[..n][i := entries[i].(balance := entries[i].balance + delta)];
      TotalCredit(entries[..n], i, delta);
    }
  }

  /** One pass of the settlement loop: parse the transfer again, find both
      parties (throw if either is missing), debit the sender, then credit
      the receiver. Clients stay, and the sum of balances is unchanged. */
  function ApplyTrx(entries: seq<Entry>, trx: string): (r: Result<seq<Entry>>)
    ensures r.Failure? <==> !Settleable(entries, trx)
    ensures r.Success? ==> SameClients(entries, r.value) && Total(r.value) == Total(entries)
  {
    match ParseTrx(trx)
    case Failure(e) => Failure(e)
    case Success(t) =>
      var s := Find(entries, t.sender);
      var v := Find(entries, t.receiver);
      if s.None? || v.None? then Failure(ClientsNotExist)
      else
        var debited := Credit(entries, s.value, -t.value);
        Success(Credit(debited, v.value, t.value))
  }

  /** How settlement ends: every transfer applied, or an exception after
      the transfers before the bad one were applied. */
  datatype Settlement = Settled(entries: seq<Entry>) | Broken(error: Error, entries: seq<Entry>)

  /** The settlement loop of `Server::mine`, in pool order. It completes
      exactly when every transfer is settleable, and it moves money between
      accounts without creating or destroying any, even when it stops early. */
  function Settle(entries: seq<Entry>, pending: seq<string>): (r: Settlement)
    ensures SameClients(entries, r.entries) && Total(r.entries) == Total(entries)
    ensures r.Settled? <==> PoolSettleable(entries, pending)
    decreases |pending|
  {
    if |pending| == 0 then Settled(entries)
    else
      match ApplyTrx(entries, pending[0])
      case Failure(e) => Broken(e, entries)
      case Success(next) =>
        var r := Settle(next, pending[1..]);
        SettleableSameClients(entries, next, pending);
        r
  }

  /** Settleability depends only on which clients are registered. */
  lemma PoolSettleableSameClients(a: seq<Entry>, b: seq<Entry>, pending: seq<string>)
    requires SameClients(a, b)
    ensures PoolSettleable(a, pending) <==> PoolSettleable(b, pending)
  {
    forall k | 0 <= k < |pending|
      ensures Settleable(a, pending[k]) <==> Settleable(b, pending[k])
    {
      if ParseTrx(pending[k]).Success? {
        var t := ParseTrx(pending[k]).value;
        SameClientsHolds(a, b, t.sender);
        SameClientsHolds(a, b, t.receiver);
      }
    }
  }

  /** The first step of settlement: a pool is settleable when its first
      transfer is, and the rest is settleable once that transfer is applied. */
  lemma SettleableSameClients(a: seq<Entry>, b: seq<Entry>, pending: seq<string>)
    requires SameClients(a, b) && |pending| > 0
    ensures PoolSettleable(a, pending) <==> Settleable(a, pending[0]) && PoolSettleable(b, pending[1..])
  {
    PoolSettleableSameClients(a, b, pending[1..]);
    if Settleable(a, pending[0]) && PoolSettleable(a, pending[1..]) {
      forall k | 0 <= k < |pending|
        ensures Settleable(a, pending[k])
      {
        if k > 0 {
          assert pending[k] == pending[1..][k - 1];
        }
      }
    }
  }


  /** The result of `Server::mine` on a finite prefix of the nonce draws.
      `Searching`: no draw in the prefix met the target (or there are no
      accounts), so the `while (true)` loop of `Server::mine` would still be running. `Mined`: the
      winning nonce, the index of the winning account, and the new ledger.
      `Aborted`: settlement threw; the ledger as the exception left it. */
  datatype MineOutcome =
    | Searching
    | Mined(nonce: Nonce, winner: nat, ledger: Ledger)
    | Aborted(error: Error, ledger: Ledger)

  /** `Server::mine`. Draw `j` of `nonces` is made by account `j mod n`
      (one nonce per account per pass over the registry, restarting from
      the first account). On the first winning draw the winner is credited
      6.25, the pool is settled in order and emptied, and the nonce is
      returned. */
  function Mine(l: Ledger, crypto: Crypto, nonces: seq<Nonce>): (r: MineOutcome)
    ensures r.Searching? <==>
            |l.entries| == 0 || forall j :: 0 <= j < |nonces| ==> !Wins(MemoPool(l.pending), crypto, nonces[j])
    ensures !r.Searching? ==>
            exists j :: 0 <= j < |nonces| && Search(MemoPool(l.pending), crypto, nonces, 0) == Some(j)
                        && (r.Mined? ==> r.nonce == nonces[j] && r.winner == j % |l.entries|)
    ensures !r.Searching? ==>
            SameClients(l.entries, r.ledger.entries) && Total(r.ledger.entries) == Total(l.entries) + MiningReward
    ensures r.Mined? ==> r.ledger.pending == [] && Wins(MemoPool(l.pending), crypto, r.nonce)
    ensures r.Aborted? ==> r.ledger.pending == l.pending
    ensures r.Aborted? <==> !r.Searching? && !PoolSettleable(l.entries, l.pending)
  {
    var memo := MemoPool(l.pending);
    if |l.entries| == 0 then Searching
    else
      match Search(memo, crypto, nonces, 0)
      case None => Searching
      case Some(j) =>
        var winner := j % |l.entries|;
        var credited := Credit(l.entries, winner, MiningReward);
        PoolSettleableSameClients(l.entries, credited, l.pending);
        match Settle(credited, l.pending)
        case Settled(es) => Mined(nonces[j], winner, Ledger(es, []))
        case Broken(e, es) => Aborted(e, Ledger(es, l.pending))
  }

  // ----- Settlement, account by account -----

  /** What transfer `trx` does to the balance of account `id`: plus the
      value if `id` receives it, minus the value if `id` sends it. */
  function Flow(trx: string, id: string): real {
    match ParseTrx(trx)
    case Failure(_) => 0.0
    case Success(t) =>
      (if t.receiver == id then t.value else 0.0) - (if t.sender == id then t.value else 0.0)
  }

  /** The combined effect of a pool on the balance of account `id`. */
  function Net(pending: seq<string>, id: string): real {
    if |pending| == 0 then 0.0 else Flow(pending[0], id) + Net(pending[1..], id)
  }

  /** Transfer `trx` names `id` as sender or receiver. */
  predicate Names(trx: string, id: string) {
    ParseTrx(trx).Success? && (ParseTrx(trx).value.sender == id || ParseTrx(trx).value.receiver == id)
  }

  lemma UniqueIdsSameClients(a: seq<Entry>, b: seq<Entry>)
    requires SameClients(a, b) && UniqueIds(a)
    ensures UniqueIds(b)
  {
  }

  /** With unique ids, one applied transfer changes each balance by its flow. */
  lemma ApplyTrxBalances(entries: seq<Entry>, trx: string)
    requires UniqueIds(entries)
    requires ApplyTrx(entries, trx).Success?
    ensures forall i :: 0 <= i < |entries| ==>
              ApplyTrx(entries, trx).value[i].balance == entries[i].balance + Flow(trx, entries[i].client.id)
  {
  }

  /** With unique ids, a completed settlement changes each balance by the
      net flow of the whole pool into that account. */
  lemma {:induction false} SettleBalances(entries: seq<Entry>, pending: seq<string>)
    requires UniqueIds(entries)
    requires Settle(entries, pending).Settled?
    ensures forall i :: 0 <= i < |entries| ==>
              Settle(entries, pending).entries[i].balance == entries[i].balance + Net(pending, entries[i].client.id)
    decreases |pending|
  {
    if |pending| > 0 {
      var next := ApplyTrx(entries, pending[0]).value;
      ApplyTrxBalances(entries, pending[0]);
      UniqueIdsSameClients(entries, next);
      SettleBalances(next, pending[1..]);
      forall i | 0 <= i < |entries|
        ensures Settle(entries, pending).entries[i].balance == entries[i].balance + Net(pending, entries[i].client.id)
      {
        assert next[i].client == entries[i].client;
      }
    }
  }

  /** A pool that never names `id` leaves its balance alone. */
  lemma {:induction false} NetUnnamed(pending: seq<string>, id: string)
    requires forall k :: 0 <= k < |pending| ==> !Names(pending[k], id)
    ensures Net(pending, id) == 0.0
    decreases |pending|
  {
    if |pending| > 0 {
      assert !Names(pending[0], id);
      NetUnnamed(pending[1..], id);
    }
  }

  /** After a successful mine from a valid ledger: the accounts are the
      same, each balance has changed by the net flow of the settled pool
      plus the reward for the winner alone, and the ledger is still valid. */
  lemma MineBalances(l: Ledger, crypto: Crypto, nonces: seq<Nonce>)
    requires Valid(l)
    requires Mine(l, crypto, nonces).Mined?
    ensures var r := Mine(l, crypto, nonces);
            forall i :: 0 <= i < |l.entries| ==>
              && r.ledger.entries[i].client == l.entries[i].client
              && r.ledger.entries[i].balance
                 == l.entries[i].balance + Net(l.pending, l.entries[i].client.id) + (if i == r.winner then MiningReward else 0.0)
    ensures Valid(Mine(l, crypto, nonces).ledger)
  {
    var r := Mine(l, crypto, nonces);
    var credited := Credit(l.entries, r.winner, MiningReward);
    UniqueIdsSameClients(l.entries, credited);
    assert Settle(credited, l.pending).Settled?;
    SettleBalances(credited, l.pending);
    UniqueIdsSameClients(l.entries, r.ledger.entries);
  }

  /** An account that neither won nor appears in any pending transfer keeps
      its balance through mining. */
  lemma MineLeavesBystanders(l: Ledger, crypto: Crypto, nonces: seq<Nonce>, i: nat)
    requires Valid(l)
    requires Mine(l, crypto, nonces).Mined?
    requires i < |l.entries| && i != Mine(l, crypto, nonces).winner
    requires forall k :: 0 <= k < |l.pending| ==> !Names(l.pending[k], l.entries[i].client.id)
    ensures Mine(l, crypto, nonces).ledger.entries[i] == l.entries[i]
  {
    MineBalances(l, crypto, nonces);
    NetUnnamed(l.pending, l.entries[i].client.id);
  }
}
