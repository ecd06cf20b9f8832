# Toy proof-of-work ledger, modelled in Dafny

This project models the ledger core of a small proof-of-work system with
one server and several clients. The parts modelled are:

- **Registration**: `add_client` registers an account with a balance of 5.0.
  If the requested id is taken, it retries up to four times with a
  pseudo-random numeric suffix, then throws.
- **Lookups**: `get_wallet` throws on an unknown id, and `get_client` returns
  null for one.
- **Transfer strings**: a transfer travels as `sender-receiver-amount`.
  The client builds it with `std::to_string`, and the server splits it with
  `getline` on `'-'` and reads the amount with `istream >> double`.
- **Admission**: `add_pending_trx` puts a signed transfer into the
  process-wide pending pool. It does so only when the signature verifies,
  both parties exist and the sender's balance covers the amount.
- **Mining**: `mine` concatenates the pool into a memo pool. Each account in
  turn draws a nonce, and a draw wins when three consecutive `'0'`s occur in
  the first ten characters of `sha256(memo + nonce)`. The winner is paid
  6.25, then every pooled transfer is settled in order and the pool is
  cleared.

The model is purely functional. The server's account map and the global
pending pool are one immutable `Server.Ledger`, and every operation returns a
new one. Exceptions become `Common.Result` failures, and a null pointer
becomes `Common.None`. The crypto library (`Accounts.Crypto`), the
Mersenne-Twister draws (`rng`) and the nonces the clients generate
(`nonces`) are all parameters.

Modules: `Common` (Option, Result, error kinds), `Decimal` (digit strings),
`Amounts` (printing and reading of amounts), `Transactions` (the transfer
string), `ProofOfWork` (the difficulty test), `Accounts` (client identity),
`Server` and `ClientSide` (the client's operations).

Two behaviours of the code deserve notice, and the model keeps both:

- A negative amount makes the server throw rather than refuse. The client
  prints the amount with `std::to_string`, which puts a `'-'` in front of
  it, so `parse_trx` splits the string into four fields and throws the
  format error. A field produced by the split never contains `'-'`, so the
  `value < 0` test in `add_pending_trx` (src/server.cpp:96) is dead code.
  The same holds for the `!parse_trx(...)` tests (src/server.cpp:93 and
  154), because `parse_trx` never returns false. See
  `ClientSide.NegativeTransferThrows`.
- Settlement in `mine` (src/server.cpp:150-173) does not re-check funds. It
  subtracts each pooled amount from the sender even when that overdraws
  the sender, for example after the same transfer was pooled twice.
  `Server.Mine`, `Server.MineBalances` and `Server.AdmitsReplay` state this.

## Model

| member | source | states |
|---|---|---|
| Decimal.NatToString | src/server.cpp:124 | `std::to_string` of a nonce is a non-empty digit string without a leading zero (unless it is 0) whose decimal value is the nonce |
| Amounts.Rounded | src/client.cpp:35 | the amount as printed with six decimals is within half a millionth of the amount, and rounding never makes a non-negative amount negative or a negative amount positive |
| Amounts.RoundedExact | src/client.cpp:35 | an amount that is a whole number of millionths is printed exactly |
| Amounts.FormatAmount | src/client.cpp:35 | the printed amount starts with `'-'` exactly when the amount is negative, contains no other `'-'`, and ends in a digit |
| Amounts.ParseFormatted | src/server.cpp:80-84 | reading back an amount printed by `std::to_string` yields the amount rounded to millionths, for every sign |
| Amounts.HyphenFreeIsNonNegative | src/server.cpp:80-84 | a number read from text that contains no `'-'` is never negative |
| Transactions.Split | src/server.cpp:70-75 | no token collected by the `getline` loop contains the delimiter |
| Transactions.SplitCount | src/server.cpp:70-75 | the loop yields one token per `'-'`, plus one unless the string is empty or ends with `'-'` |
| Transactions.JoinSplit | src/server.cpp:70-75 | joining the tokens with `'-'` restores the string, except for a final `'-'`, which is lost |
| Transactions.SplitJoin | src/server.cpp:70-75 | hyphen-free tokens, the last one non-empty, come back unchanged from a join followed by the split |
| Transactions.ParseTrx | src/server.cpp:68-88 | a successful parse gives hyphen-free sender and receiver and a non-negative amount |
| Transactions.ParseTrxFieldCount | src/server.cpp:76-79 | the parse throws the format error exactly when the `'-'` count, plus one for a final character other than `'-'`, is not three |
| Transactions.ParseTrxSound | src/server.cpp:68-88 | a parsed string is sender, receiver and a number text joined by `'-'`, possibly followed by one more `'-'`, and the value is that text's reading |
| Transactions.ParseJoined | src/server.cpp:68-88 | hyphen-free sender and receiver and a non-empty hyphen-free amount text parse back field by field, or fail with the not-a-number error |
| Transactions.ParseEncoded | src/client.cpp:35 | a transfer string a client builds from hyphen-free ids and a non-negative amount parses back to the same parties and the rounded amount |
| Transactions.EncodedParsesIff | src/client.cpp:35-36 | a client-built transfer string parses exactly when both ids are hyphen-free and the amount is non-negative; otherwise the server throws the format error |
| ProofOfWork.ScanFinds | src/server.cpp:126-143 | the hash scan resumed at any position, with a consistent zero count, agrees with a search for three zeros in the examined window |
| ProofOfWork.MeetsTargetIff | src/server.cpp:126-143 | the scan succeeds exactly when `"000"` occurs within the first ten characters of the hash |
| ProofOfWork.OnlyWindowMatters | src/server.cpp:130-132 | hashes with the same first ten characters get the same verdict |
| Accounts.NewClient | src/client.cpp:11-16 | a new client keeps the id it was given verbatim and publishes the generated public key |
| Server.NewServer | src/server.cpp:14-15 | a fresh server has no accounts and an empty pool, and its ledger is valid |
| Server.Find | src/server.cpp:40-43 | the lookup succeeds exactly when some account has the id, and returns the first such account |
| Server.GetWallet | src/server.cpp:39-48 | fails with the not-exist error exactly when no account has the id; otherwise returns the balance of the first account with it |
| Server.GetClient | src/server.cpp:50-59 | null exactly when no account has the id; otherwise the first account with it |
| Server.SuffixChunk | src/server.cpp:33 | one suffix chunk is the decimal code of the lower-case letter `'a' + draw mod 26`: two or three digits whose value is that code |
| Server.Suffix | src/server.cpp:31-34 | a retry suffix is a string of 8 to 12 digits |
| Server.Candidates | src/server.cpp:21-34 | five ids are tried: first the requested id itself, then four ids that each start with the requested id and continue with 8 to 12 digits |
| Server.FirstFree | src/server.cpp:21-30 | finds the first candidate no account holds, with every earlier candidate taken, or reports that all are taken |
| Server.AddClient | src/server.cpp:17-37 | a free id is registered verbatim; otherwise the first free candidate is; the new account is appended with 5.0 and nothing else changes; the call fails with the conflict error exactly when all five candidates are taken |
| Server.AddClientKeepsValid | src/server.cpp:27-29 | registration keeps ids unique and every pooled transfer settleable |
| Server.AddPendingTrx | src/server.cpp:90-114 | throws exactly when the parse throws, with the same error; otherwise balances never change, and the transfer is pooled exactly when the receiver exists, the signature verifies under the sender's key and the sender's balance covers the amount; a refused transfer leaves the ledger as it was |
| Server.AddPendingTrxKeepsValid | src/server.cpp:99-112 | admission only pools transfers whose parties both exist, so the ledger stays valid |
| Server.AdmissionIgnoresPool | src/server.cpp:109-112 | admission checks the current balance only, so an admissible transfer is admitted whatever is already pooled (admission reserves nothing) |
| Server.AdmitsReplay | src/server.cpp:109-112 | an admitted signed transfer is admitted again when resubmitted, so the pool can hold it twice whatever the sender's balance |
| Server.Search | src/server.cpp:121-144 | finds the first winning nonce draw, and every earlier draw loses, or reports that no draw wins |
| Server.Credit | src/server.cpp:145 | crediting one account changes only that balance, by exactly the amount, and changes the total by the same amount |
| Server.ApplyTrx | src/server.cpp:157-172 | settling one transfer fails exactly when it does not parse or a party is unknown; otherwise accounts are unchanged and money is conserved |
| Server.Settle | src/server.cpp:150-173 | settling the pool conserves money and accounts, and completes exactly when every pooled transfer can be settled |
| Server.Mine | src/server.cpp:116-180 | mining succeeds on the first winning draw, which account `j mod n` makes; it adds exactly 6.25 to the total; on completion the pool is empty; settlement aborts exactly when some pooled transfer cannot be settled, and then the pool is kept |
| Server.ApplyTrxBalances | src/server.cpp:157-172 | with unique ids, one settled transfer moves its amount from the sender's balance to the receiver's and leaves every other balance alone |
| Server.SettleBalances | src/server.cpp:150-173 | with unique ids, settling the pool changes each balance by the net flow of the pool into that account |
| Server.NetUnnamed | src/server.cpp:150-173 | a pool that never names an account has no net effect on it |
| Server.MineBalances | src/server.cpp:144-175 | from a valid ledger, a successful mine changes each balance by its net pool flow plus 6.25 for the winner alone, with no re-check of funds, and leaves the ledger valid |
| Server.MineLeavesBystanders | src/server.cpp:144-175 | an account that did not win and is named in no pooled transfer keeps its balance through mining |
| ClientSide.GetWallet | src/client.cpp:20 | a client's wallet lookup fails exactly when its id is not registered, and otherwise returns that account's balance |
| ClientSide.TransferMoney | src/client.cpp:28-37 | an unregistered sender throws; a balance below the amount or an unknown receiver gives false with nothing submitted; otherwise the result is the server's admission of exactly `id-receiver-amount`, signed with the client's key; balances never change |
| ClientSide.NegativeTransferThrows | src/client.cpp:35-36 | a negative amount that passes the client's checks makes the server throw the format error instead of returning false |
| ClientSide.HyphenatedIdThrows | src/client.cpp:35-36 | a `'-'` in either id makes the transfer throw the format error |
| ClientSide.TransferAdmitted | src/client.cpp:28-37 | with hyphen-free ids, a non-negative amount, both parties registered and a verifying signature, the transfer is accepted exactly when the balance covers the amount as printed, not the amount the client checked |
| ClientSide.TransferKeepsValid | src/client.cpp:36 | a transfer keeps the ledger valid |
| ClientSide.TransferThenMine | src/client.cpp:28-37 | a transfer of a whole number of millionths, followed by a successful mine, moves exactly that amount from sender to receiver, on top of the reward for whichever of them won |

## Left out

- The crypto library is uninterpreted. `generate_key`, `signMessage`, `verifySignature` and `sha256` are the `Accounts.Crypto` functions and the `keys` argument. No lemma relies on any property of them beyond what its precondition states.
- Nonce generation is not modelled. `generate_nonce` seeds a generator from the clock. Its draws are the given finite sequence `nonces`, and draw `j` belongs to account `j mod n`.
- Server.Mine: the unbounded `while (true)` is cut at the end of `nonces`. `Searching` stands for "still looping", and that includes a server with no accounts.
- Server.AddClient: the `mt19937` generator seeded from `time(0)` is the function `rng`, and draw `4(a - 1) + k` makes chunk `k` of the suffix for retry `a`.
- Server.NewServer: each model ledger owns its pending pool, and a fresh ledger starts with an empty one. In the C++ code `pending_trxs` is a global (src/server.cpp:14) that `Server::Server() {}` does not clear, so a second server built in the same process sees the first one's pool.
- Map order is not modelled. The account map is ordered by pointer value, and the model keeps accounts in registration order. The account visiting order in `mine` is therefore the ledger's order.
- Client ownership is not modelled: the `shared_ptr` and the client's back-pointer to its server. A client is a value, and the ledger is passed explicitly.
- `show_wallets` and all console output are not modelled: they are output only.
- Amounts.FormatAmount: amounts are exact reals, not IEEE doubles. Printing rounds half up to millionths instead of the C library's rounding of the binary value.
- Amounts.ParseAmount: a number too large for a double makes the real read fail, but the model reads it as its exact value.

