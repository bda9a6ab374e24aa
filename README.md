# UnityWallet / NTRU toolkit in Dafny

This project models the numeric and ledger core of `crypto.js`. That file holds
two classes:

- An `NTRU` class. It provides BigInt modular exponentiation, a modular
  inverse, bit length and masks, and little-endian byte conversion. It also
  provides a hash-to-field function `hashn`, an XOR keystream used to encode
  buffers, a recursive Pietrzak-style verifiable delay function (VDF) and a
  signature-based verifiable random function (VRF).
- A `UnityWallet` class over tokens. A token is minted to a public key with a
  value and carries an append-only list of transactions. Balances, current
  owners and chain depth are all computed from that list.

The modules follow that structure:

- `JsBigInt` (js_bigint.dfy): the semantics of BigInt `%` and `/`. They
  truncate toward zero, so the remainder takes the dividend's sign. The
  module also defines `&` and `^` on non-negative values, powers, gcd, and the
  division facts the proofs use.
- `Ntru` (ntru.dfy): `powMod`, `modInv` and `msb` as methods with loops.
  `uint8array2n` and `n2uint8array` are methods over arrays. The
  `NTRUEncode`/`NTRUDecode` XOR loop is a method that updates an array in
  place. `hashn` and `mask` are functions.
- `NtruVdf` (ntru_vdf.dfy): `vdf` and `verifyVdf` as recursive functions,
  `vrf` and `verifyVrf` as plain functions.
- `UnityWallet` (unity_wallet.dfy): the balance queries, `getCurrentOwners`
  and the validation in `genTransaction` are functions. The early-return
  loop of `findTransactionById` and the `while (true)` walk of
  `getDepthByTxId` are methods.

Four things are parameters of the model rather than parts of it:

- The SHA-256 digest of the canonical serialisation is the function
  parameter `hash`. It maps the hashed value (`Datum`) to a non-negative
  integer.
- A transaction's id, `getTxId`, is the parameter `txId`.
- NTRU signing and signature checking are the parameters `sign` and
  `verifySign`.
- Clock readings (`timestamp`) and seeds are ordinary arguments.

Four behaviours of the code differ from what its names suggest. The model
follows the code in each:

- `powMod(x, 0, 1)` returns `1`, because the loop never runs. With `exp > 0`
  and `mod == 1` it returns `0`.
- A spend whose `prevTxId` is falsy is rejected by `genTransaction`. So a
  first spend cannot have a `null` predecessor. It names some id instead
  (for instance the token id, which is no transaction's id), and its depth
  is then `1`.
- A config without a `type` is validated as a spend. But the balance
  queries compare `type === "spend"` strictly, so that transaction never
  counts toward any balance.
- The minter's base is always the minted value. A spend paid to the minter
  does not raise the minter's spendable value.

## Model

| member | source | states |
|---|---|---|
| Ntru.PowMod | crypto.js:200-210 | the square-and-multiply loop returns `base^exp` reduced with BigInt `%` for `exp > 0`, and `1` when the loop never runs |
| Ntru.PowModIsReducedPower | crypto.js:200-210 | for `mod > 1` and non-negative operands the result is `base^exp % mod` and lies in `[0, mod)`, including `exp == 0` |
| Ntru.ModInv | crypto.js:186-198 | for `0 <= a`, `b > 1` and `gcd(a, b) == 1` the result `x` lies in `[0, b)` with `a * x ≡ 1 (mod b)`; it is `1` when `b == 1`, when `a <= 1`, when a zero remainder is met or when `gcd != 1`, and `0` when `a > 1` and `b < 0` |
| Ntru.Msb | crypto.js:338-345 | for `n > 0` the bit count satisfies `2^(bits-1) <= n < 2^bits`; for `n <= 0` it is `0` |
| Ntru.Mask | crypto.js:334-336 | `mask(k)` lies below `2^k` |
| Ntru.MaskIsAllOnes | crypto.js:334-336 | `mask(0)` is `0` and `mask(k)` is `2 * mask(k - 1) + 1`: all `k` low bits of `mask(k)` are set |
| Ntru.MaskKeepsLowBits | crypto.js:334-336 | `x & mask(k)` equals `x mod 2^k`, so it is below `2^k` |
| Ntru.MaskToBitLength | crypto.js:224-225 | masking with `mask(msb(p))` gives a value below `2^msb(p)`, which is at most `2p` |
| Ntru.Uint8ArrayToN | crypto.js:305-310 | the downward loop returns the little-endian value of the array |
| Ntru.NToUint8Array | crypto.js:312-320 | the shifting loop pushes exactly the minimal little-endian bytes of `n`, each the low byte `& 255` of the shifted value |
| Ntru.LeRoundTrip | crypto.js:305-320 | reading back the bytes of `n >= 0` gives `n` |
| Ntru.LeBytesMinimal | crypto.js:312-320 | the byte list is empty exactly when `n <= 0` and otherwise has no trailing zero byte |
| Ntru.LeBytesOfValue | crypto.js:305-320 | a byte list without a trailing zero is recovered from its value, so the round trip also holds in the other direction |
| Ntru.NToBytesAndBack | crypto.js:178-184 | converting `n >= 0` to bytes and back returns `n` |
| Ntru.Hashn | crypto.js:212-215 | the result is at least `1`, below `abs(mod)` when `abs(mod) > 1`, equal to the digest modulo `mod` when that is not zero, and exactly `1` when it is zero |
| Ntru.KeystreamByte | crypto.js:263 | the byte `hashn((seed + i).toString(16), p) & 255n` XORed into position `i` is that hash modulo 256 |
| Ntru.XorByteTwice | crypto.js:263 | XORing a byte with the same keystream byte twice gives the byte back |
| Ntru.MaskedTwice | crypto.js:260-272 | XORing with the same keystream twice restores every byte |
| Ntru.ApplyKeystream | crypto.js:262-263 | the in-place loop leaves `buf[i] = old buf[i] XOR keystream(i)` at every position |
| Ntru.EncodeThenDecode | crypto.js:260-272 | running the encode loop and then the decode loop with one seed leaves the buffer unchanged |
| NtruVdf.Vdf | crypto.js:388-399 | for `t >= 1` the proof has `floor(log2 t)` rounds: `2^len <= t < 2^(len+1)` |
| NtruVdf.VerifyVdf | crypto.js:401-412 | for every `T`, an accepted proof has `T >= 1`, at least `floor(log2 t)` rounds, its first round carries the recomputed challenge, and at `t == 1` the claimed `y` is `x^2 mod N` |
| NtruVdf.NonPositiveRejected | crypto.js:401-411 | for `T <= 0` the truncating halving never reaches `1`, so `verifyVdf` rejects every proof list and every `y` |
| NtruVdf.VdfComplete | crypto.js:388-412 | for every `t >= 1` the output of `vdf` is accepted by `verifyVdf` |
| NtruVdf.VerifiedOutputUnique | crypto.js:401-412 | a given proof list is accepted with at most one `y` |
| NtruVdf.VdfOutputExact | crypto.js:403 | with the honest proof, `verifyVdf` accepts `y` if and only if `y` is the honest output |
| NtruVdf.TamperedChallengeRejected | crypto.js:405-408 | changing the stored `r` of any round of an honest proof makes `verifyVdf` reject, whatever `y` is claimed |
| NtruVdf.AnyRoundValuesVerify | crypto.js:401-412 | a proof whose `x_k` values are chosen freely, with `r` and `x1` recomputed from them, is accepted: the verifier never checks `x_k` against `x^(2^k)` |
| NtruVdf.VdfValuesReduced | crypto.js:388-399 | for `N > 1`, `y` and every round's `x_k` and `r` lie in `[0, N)` |
| NtruVdf.Vrf | crypto.js:348-352 | the output is a `hashn` value modulo `p`, so at least `1` and below `abs(p)` when `abs(p) > 1`, and the proof is the signature of that output under the private key |
| NtruVdf.VerifyVrf | crypto.js:354-358 | an output other than `hashn(msg)` is rejected, and acceptance implies the signature check passed |
| NtruVdf.VrfVerifiesIffSignatureDoes | crypto.js:348-358 | the output of `vrf` is accepted by `verifyVrf` exactly when the signature it carries verifies |
| UnityWallet.SumOf | crypto.js:77-79 | filtering with a predicate and summing from `0n` yields a number if and only if every kept transaction's value is a BigInt |
| UnityWallet.ReceivedValue | crypto.js:76-80 | the received total is a number exactly when every spend paid to the key has a BigInt value |
| UnityWallet.SpentValue | crypto.js:82-86 | the spent total is a number exactly when every spend paid from the key has a BigInt value |
| UnityWallet.SpendableValue | crypto.js:88-91 | the spendable value is a number exactly when the key is the minter or its received total is a number, and its spent total is a number |
| UnityWallet.SpendUpdatesTotals | crypto.js:76-86 | appending a spend of `v` adds `v` to the sender's spent total and to the recipient's received total and changes no other key's totals |
| UnityWallet.TransferMovesValue | crypto.js:76-91 | a spend of `v` between two different keys lowers the sender's spendable value by `v`, raises the recipient's by `v` unless the recipient is the minter, and leaves every other key's value alone |
| UnityWallet.NonSpendLeavesBalances | crypto.js:76-91 | appending a transaction whose `type` is not `"spend"`, including one without a `type`, changes no received, spent or spendable value |
| UnityWallet.ValidatedLedgerHasBalances | crypto.js:76-91 | on a ledger of transactions that pass the checks of `genTransaction`, every balance query yields a number |
| UnityWallet.Distinct | crypto.js:133 | the set's elements are exactly the list's elements, each once |
| UnityWallet.Leaves | crypto.js:134 | the leaves are exactly the recipients that are not senders, without repetition when the recipients have none |
| UnityWallet.LeavesAreLeafKeys | crypto.js:132-134 | a key survives the `fromSet` filter of the distinct recipients exactly when some transaction pays to it and none pays from it |
| UnityWallet.CurrentOwners | crypto.js:131-136 | the result is never empty; when some key is paid to and never pays, the owners are exactly those keys, each once; otherwise the result is `[token.pubKey]` |
| UnityWallet.GenTransaction | crypto.js:102-125 | a spend, including a config without a `type`, fails with `InvalidValue` exactly when its value is not a BigInt, and otherwise with `MissingPrevTxId` exactly when `prevTxId` is falsy; a returned transaction carries the arguments and the signature of `{ tokenId, prevTxId, data }` and passes those checks |
| UnityWallet.IndexOf | crypto.js:68-74 | the result is the first position whose id is the target, or none when no id matches |
| UnityWallet.FindTransactionById | crypto.js:68-74 | the loop returns the first transaction whose id is the target, and `None` exactly when no id matches |
| UnityWallet.GetDepthByTxId | crypto.js:54-66 | when every predecessor comes earlier in the list, the walk terminates with the number of `prevTxId` links followed from the id |
| UnityWallet.ChainDepthBound | crypto.js:54-66 | the depth of an id is at most one more than the position of its transaction, and at most the number of transactions |
| UnityWallet.IndexOfSnoc | crypto.js:68-74 | after appending a transaction, lookup finds what it found before, or the new transaction when only it has the id |
| UnityWallet.AppendKeepsOrder | crypto.js:54-66 | appending a transaction that no transaction names as predecessor keeps every predecessor earlier in the list |
| UnityWallet.AppendKeepsDepth | crypto.js:54-66 | such an append leaves the depth of every other id unchanged |
| UnityWallet.DepthOfAppended | crypto.js:54-66 | a newly appended transaction with a fresh id has depth `0` when its `prevTxId` is falsy and otherwise one more than the depth of its predecessor |

## Left out

- SHA-256 over the canonical serialisation is not modelled. The digest is the parameter `hash`, so every property holds for any digest function.
- `serialize`/`deserialize`, `TextEncoder`/`TextDecoder`, `btoa`/`atob` and base64 are not modelled. They are JSON, floats and browser encodings. The byte conversions and the XOR loop are modelled on the byte arrays they produce and consume.
- `genRand`, `randr` and `Date.now` are not modelled. Seeds and timestamps are arguments.
- Key generation, `NTRUEncrypt`, `NTRUDecrypt`, `NTRUSign` and `NTRUVerifySign` are not modelled. The code promises no correctness relation between them. Signing and signature checking are the parameters `sign` and `verifySign`.
- The envelope and password wrappers `encryptNTRU`, `decryptNTRU`, `encrypt` and `decrypt` are not modelled. They are base64 and string-splitting plumbing around the modelled parts.
- The event emitter is not modelled. It is a notification hook with no effect on the ledger.
- `genToken`, `verifyToken`, `getTokenId` and `verifyTransaction` are not modelled. They call `vdf`, `verifyVdf`, `hashn` and signature checking on records.
- The commented-out draft VDFs are not modelled. They are not part of the code that runs.
- `async`/`await` is not modelled. Each operation is sequential once the digest is a parameter.
- Ntru.PowMod: `mod == 0` is excluded, because the code throws a `RangeError` there (`base %= 0n`).
- Ntru.Hashn, Ntru.KeystreamByte, Ntru.ApplyKeystream, NtruVdf.Vdf, NtruVdf.VerifyVdf, NtruVdf.Vrf and NtruVdf.VerifyVrf: a zero modulus (`mod`, `p` or `N`) is excluded, because BigInt `% 0n` in `hashn` throws a `RangeError` there.
- NtruVdf.Vdf: `t >= 1` is required, because for `t <= 0` the code recurses forever. `verifyVdf` takes every `t`.
- NtruVdf.VerifyVdf: a proof list too short for `t` makes the code throw on `proof[0]`; the model returns `false` there.
- UnityWallet.SumOf: a value that is not a BigInt makes the code throw, or turns the sum into a string. The model only reports that no number results (`None`).
- UnityWallet.CurrentOwners: keys are BigInts, so `toString` and `BigInt` cancel out and are not modelled. A transaction without `from` or `to`, which makes the code throw, is not modelled.
- UnityWallet.GetDepthByTxId: it requires that a `prevTxId` that names a transaction in the list names an earlier one. A `prevTxId` that names no transaction, such as the token id of a first spend, is allowed. So lists whose predecessors come later are excluded even when they have no cycle (on those the code still terminates), as well as cycles of `prevTxId` links, on which the code loops forever.
- UnityWallet.GenTransaction: the `type` field is only classified as missing, `"spend"` or anything else. Every value other than `"spend"` is compared alike. `null` falls into the last class, because the destructuring default replaces only a missing field.
