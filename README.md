# Wordle-tree front end: Merkle commitment and board decoding, in Dafny

This project models two pure cores of the wordletree front end.

The first is `generateProofs` (`src/helpers/merkletree.js`). It commits to a
guess with a Merkle tree and returns the root together with one inclusion
proof per letter:

- The guess is lower-cased and split into characters. Each character is
  hashed with Keccak-256, which gives one leaf per character in guess order.
- The tree is built the way `merkletreejs` builds it with
  `{ sortLeaves: true, sortPairs: true }`. The leaf digests are sorted in
  `Buffer.compare` order. Each pair is hashed as `H(min ++ max)`, the
  sorted-pair convention that OpenZeppelin's `MerkleProof` checks. A level
  of odd length copies its unpaired last node up unchanged (promotion). This
  is the library default because `duplicateOdd` is not set.
- The root is rendered as `"0x"` plus lowercase hex.
- For each leaf, its hex proof is looked up by value, collected, and checked
  with the library's `verify`. A failed check makes the function return a
  failure instead of `[root, proof]`.

The tree library is not part of the repository. Its behaviour is written out
here as pure functions over levels (`MerkleTree`). Keccak-256 is left
uninterpreted: every operation takes the hash `h : seq<Byte> -> Digest` as a
parameter, and a digest is a 32-byte sequence. `merkletree.js` uses
`keccak256` on lines 6 and 8 but never imports it, so the parameter also
stands in for whichever implementation was intended. The model assumes the
`keccak256` npm package (built on `js-sha3`), which hashes a JavaScript string
as its UTF-8 bytes, so a character reaches the hash as `Utf8.Encode` of it.
Other candidates differ: ethers' `keccak256` refuses a plain string.

The second core is the decoding in the player store
(`src/store/usePlayer.js`):

- `returnBoard` turns the per-cell status numbers of the six rows into
  `{ letter, state, revealed }` cells of a 6×5 board. It fills a fresh
  board with nested loops and stores the board in the store.
- `getPlayerGameStatus` maps the numeric game status to `'Active'`,
  `'Winner'`, `'Loser'` or `''`.

The contract reads these functions await become parameters: `rows[i]`
stands for `getRowValues(i)`, and `gameStatus` for the value
`getGameStatus` returns.

Modules: `Options`, `Bytes` (byte order, hex) and `Utf8`, then `DigestSort`
(the sorted leaf level), `MerkleTree` (build, proof, verify), `GenerateProofs`
(the helper itself), and `PlayerStore` (cell and status decoding, and the
`Player` class holding `playerBoard` and `playerGameStatus`).

Behaviour worth knowing: the code, including the library it calls, does the
following.

- An empty guess is not an error. The tree has no root node, the library
  returns an empty buffer, so the root string is `"0x"` and the proof list is
  empty (`GenerateProofs.EmptyGuess`).
- Asking for the proof of a digest that is not a leaf returns an empty proof,
  not an error (`MerkleTree.AbsentLeafHasEmptyProof`).
- Duplicate leaves are kept, not removed. The lookup keeps the last matching
  index, so equal letters get the same proof.
- The odd-node policy is promotion, not duplication.

## Model

| member | source | states |
|---|---|---|
| `Bytes.LexLeReflexive` | src/helpers/merkletree.js:8-11 | The `Buffer.compare` order used for sorting leaves and pairs is reflexive. |
| `Bytes.LexLeTotal` | src/helpers/merkletree.js:8-11 | Any two byte strings are comparable in that order. |
| `Bytes.LexLeAntisymmetric` | src/helpers/merkletree.js:8-11 | Two byte strings that compare both ways are equal, so a sorted order is unique. |
| `Bytes.LexLeTransitive` | src/helpers/merkletree.js:8-11 | The order is transitive. |
| `Bytes.LexLe` | src/helpers/merkletree.js:9-10 | `Buffer.compare(a, b) <= 0`: byte by byte, and a proper prefix sorts first. |
| `Bytes.LexLt` | src/helpers/merkletree.js:21 | `Buffer.compare(a, b) == -1`, which holds exactly when `Buffer.compare(b, a) <= 0` fails. |
| `Bytes.ToHex` | src/helpers/merkletree.js:13 | The hex text has two characters per byte, all from `0-9a-f`. |
| `Bytes.FromHexToHex` | src/helpers/merkletree.js:13 | Decoding the hex text gives back the bytes. |
| `Bytes.HexString` | src/helpers/merkletree.js:13 | The text is `"0x"` followed by the hex digits, of length 2 + 2·bytes. |
| `Bytes.ParseHexString` | src/helpers/merkletree.js:21 | How `verify` turns a hex string back into bytes: an optional `"0x"`, then digit pairs; a parsed string has two digits per byte. |
| `Bytes.ParseHexStringRoundTrip` | src/helpers/merkletree.js:21 | `verify` parses the `"0x"` strings it is given back into the same bytes. |
| `Utf8.Encode` | src/helpers/merkletree.js:6 | A character is hashed from 1 to 4 UTF-8 bytes, a single byte exactly for ASCII, with continuation bytes after the first. |
| `Utf8.DecodeEncode` | src/helpers/merkletree.js:6 | Decoding the UTF-8 bytes of a character gives back that character. |
| `Utf8.EncodeInjective` | src/helpers/merkletree.js:6 | Distinct characters are hashed from distinct byte strings. |
| `DigestSort.Insert` | src/helpers/merkletree.js:9 | Insertion into a sorted leaf level keeps it sorted and adds exactly one element. |
| `DigestSort.Sort` | src/helpers/merkletree.js:9 | The sorted leaf level is sorted and is a permutation of the leaves. |
| `DigestSort.SortedUnique` | src/helpers/merkletree.js:9 | Two sorted permutations of the same leaves are equal. |
| `DigestSort.SortIgnoresOrder` | src/helpers/merkletree.js:9 | Sorting gives the same level for any order of the same leaves. |
| `MerkleTree.HashPair` | src/helpers/merkletree.js:10 | A pair is hashed as the concatenation in `Buffer.compare` order, whichever argument comes first. |
| `MerkleTree.VerifyStep` | src/helpers/merkletree.js:21 | One step of `verify`: the node and its sibling are hashed in `Buffer.compare` order. |
| `MerkleTree.VerifyStepIsHashPair` | src/helpers/merkletree.js:10 | The verifier's step (the smaller buffer goes first) equals the builder's sorted-pair hash, and that hash does not depend on argument order. |
| `MerkleTree.NextLevel` | src/helpers/merkletree.js:8-11 | A level of n nodes gives ⌈n/2⌉ parents. |
| `MerkleTree.NextLevelAt` | src/helpers/merkletree.js:8-11 | Parent k is the sorted-pair hash of nodes 2k and 2k+1. When 2k+1 is missing, it is node 2k promoted unchanged. |
| `MerkleTree.Layers` | src/helpers/merkletree.js:8-11 | The levels start with the leaf level. For a non-empty leaf set they end in a single root node. |
| `MerkleTree.Build` | src/helpers/merkletree.js:8-11 | The tree's leaf level is sorted, is a permutation of the given leaves, and is its first level. |
| `MerkleTree.GetRoot` | src/helpers/merkletree.js:13 | The root is a node of the top level; a tree without nodes has none. |
| `MerkleTree.LastIndexOf` | src/helpers/merkletree.js:18 | The lookup finds the last index holding the leaf, and gives -1 exactly when the leaf is absent. |
| `MerkleTree.Sibling` | src/helpers/merkletree.js:18 | The sibling recorded at a level is at most one node, the other child of the same parent, and it is recorded whenever that child exists. |
| `MerkleTree.PathProof` | src/helpers/merkletree.js:18 | The path proof has at most one sibling per level. |
| `MerkleTree.GetProof` | src/helpers/merkletree.js:18 | `getHexProof` before rendering: the path proof of the leaf's last index, and the empty proof for a digest that is not a leaf. |
| `MerkleTree.Fold` | src/helpers/merkletree.js:21 | The left fold of the verify step over a proof; after at least one step the result is a 32-byte digest. |
| `MerkleTree.Verify` | src/helpers/merkletree.js:21 | `verify`: the fold of the proof into the leaf equals the root. |
| `MerkleTree.FoldAppend` | src/helpers/merkletree.js:21 | Verifying against a concatenated proof folds the first part and then the second. |
| `MerkleTree.FoldSingle` | src/helpers/merkletree.js:21 | Folding a one-sibling proof is one verifier step. |
| `MerkleTree.LevelStep` | src/helpers/merkletree.js:18-21 | Folding a node with the sibling recorded for it gives its parent on the next level. |
| `MerkleTree.PathProofReachesTop` | src/helpers/merkletree.js:18-21 | From any node of a level, the path proof folds up to the top node. |
| `MerkleTree.Completeness` | src/helpers/merkletree.js:17-23 | Every leaf's proof verifies against the root, and the root exists. |
| `MerkleTree.AbsentLeafHasEmptyProof` | src/helpers/merkletree.js:18 | A digest that is not a leaf gets the empty proof. |
| `MerkleTree.BuildIgnoresLeafOrder` | src/helpers/merkletree.js:8-11 | Any permutation of the leaves gives the same tree, so the same root and proofs. |
| `MerkleTree.SingleLeaf` | src/helpers/merkletree.js:8-11 | A single leaf is its own root, and its proof is empty. |
| `MerkleTree.EmptyTree` | src/helpers/merkletree.js:8-13 | With no leaves there is no root node, and every proof is empty. |
| `MerkleTree.CeilLog2Bounds` | src/helpers/merkletree.js:18 | `CeilLog2(n)` is ⌈log2 n⌉: n ≤ 2^k, and 2^(k-1) < n when n ≥ 2. |
| `MerkleTree.LayerCount` | src/helpers/merkletree.js:8-11 | A tree of n ≥ 1 leaves has ⌈log2 n⌉ + 1 levels. |
| `MerkleTree.PathProofLength` | src/helpers/merkletree.js:18 | A path proof has at most one sibling per level below the root. |
| `MerkleTree.ProofLengthBound` | src/helpers/merkletree.js:18 | Every proof has at most ⌈log2 n⌉ siblings for n leaves. |
| `GenerateProofs.LowerChar` | src/helpers/merkletree.js:4 | Lower-casing a character gives a case variant of it with no upper-case letter, and changes only `A-Z`. |
| `GenerateProofs.ToLower` | src/helpers/merkletree.js:4 | The lower-cased guess has the same length, differs only in letter case, and holds no upper-case letter. |
| `GenerateProofs.HashChars` | src/helpers/merkletree.js:6 | One digest per character, the hash of its UTF-8 bytes. |
| `GenerateProofs.Leaves` | src/helpers/merkletree.js:4-6 | One leaf per character of the guess. |
| `GenerateProofs.ToLowerIgnoresCase` | src/helpers/merkletree.js:4 | Two guesses lower-case to the same string exactly when they differ only in letter case. |
| `GenerateProofs.ToLowerIdempotent` | src/helpers/merkletree.js:4 | Lower-casing twice is the same as once, and leaves no upper-case letter. |
| `GenerateProofs.LeavesPerCharacter` | src/helpers/merkletree.js:4-6 | There is one leaf per character, in character order. Leaf i is the hash of the lower-cased character i. |
| `GenerateProofs.CaseInsensitiveLeaves` | src/helpers/merkletree.js:4-6 | Guesses that differ only in letter case have the same leaves, hence the same root and proofs. |
| `GenerateProofs.HashCharsAppend` | src/helpers/merkletree.js:6 | Hashing characters distributes over concatenation. |
| `GenerateProofs.HashCharsMultiset` | src/helpers/merkletree.js:6 | Strings with the same characters have the same multiset of leaves. |
| `GenerateProofs.AnagramsShareTree` | src/helpers/merkletree.js:4-11 | Anagrams, up to case, give the same tree. The root commits to the letters, not their order. |
| `GenerateProofs.RootHex` | src/helpers/merkletree.js:13 | A root renders as 66 characters that parse back to the root digest; an empty tree renders as `"0x"`. |
| `GenerateProofs.HexProof` | src/helpers/merkletree.js:18 | `getHexProof` renders one `"0x"` string per sibling, and each parses back to that sibling. |
| `GenerateProofs.ParseAll` | src/helpers/merkletree.js:21 | A parsed proof has one buffer per hex entry. |
| `GenerateProofs.ParseAllHexProof` | src/helpers/merkletree.js:18-21 | Parsing a hex proof gives back the proof's digests. |
| `GenerateProofs.VerifyHex` | src/helpers/merkletree.js:21 | `verify` on hex strings: the proof and root are parsed, and the parsed proof folds into the leaf to give the root. |
| `GenerateProofs.HexProofs` | src/helpers/merkletree.js:17-20 | The proof list has exactly one entry per leaf. |
| `GenerateProofs.CollectProofs` | src/helpers/merkletree.js:15-32 | The loop returns `[root, proof]` with entry i the hex proof of leaf i exactly when every check passes. Otherwise it reports the first leaf whose check fails. |
| `GenerateProofs.GenerateProofs` | src/helpers/merkletree.js:3-32 | The same, for the leaves, tree and root computed from the guess. |
| `GenerateProofs.GenerateProofsNeverFails` | src/helpers/merkletree.js:21-26 | Every leaf's self-check passes, so the failure branch is unreachable and `[root, proof]` is always returned. |
| `GenerateProofs.SingleCharacterGuess` | src/helpers/merkletree.js:3-32 | A one-letter guess has that letter's leaf as root and a single empty proof. |
| `GenerateProofs.EmptyGuess` | src/helpers/merkletree.js:3-32 | An empty guess gives root `"0x"` and no proofs. |
| `PlayerStore.DecodeCell` | src/store/usePlayer.js:292-321 | The letter is kept unchanged. Status 0 gives ABSENT, unrevealed; 1 gives ABSENT, revealed; 2 gives PRESENT, revealed; 3 gives CORRECT, revealed; any other status gives PRESENT, unrevealed. Each is stated in both directions. |
| `PlayerStore.DecodeCellRoundTrip` | src/store/usePlayer.js:300-320 | Decoding keeps statuses 0..3 apart and merges every other status into one cell. |
| `PlayerStore.GameStatusName` | src/store/usePlayer.js:181-194 | 0 gives `'Active'`, 1 gives `'Winner'`, 2 gives `'Loser'`, and anything else gives `''`, each in both directions. |
| `PlayerStore.GameStatusCode` | src/store/usePlayer.js:181-194 | A status name maps back to a code that renders as that name. |
| `PlayerStore.GameStatusRoundTrip` | src/store/usePlayer.js:181-194 | Codes 0..2 are recovered from their names; every other code shows as `''`. |
| `PlayerStore.Player.constructor` | src/store/usePlayer.js:19-21 | The store starts with no board and an empty game status. |
| `PlayerStore.Player.GetPlayerGameStatus` | src/store/usePlayer.js:179-195 | Stores the status name of the code, returns the code, and leaves the board alone. |
| `PlayerStore.Player.ReturnBoard` | src/store/usePlayer.js:280-326 | Stores a fresh 6×5 board in which every cell is the decoding of the letter and status at the same row and column. Also stores the game-status name. |

## Left out

- The Keccak-256 permutation itself. The hash is a parameter `h`. So neither soundness (a non-member leaf fails to verify) nor tamper detection is stated: both need collision resistance, which would have to be assumed rather than proved.
- `GenerateProofs.LowerChar`: `toLowerCase` is modelled for the ASCII letters A–Z only. Unicode case mappings, including those that change a string's length, are not modelled.
- Strings are sequences of Unicode scalar values. Lone UTF-16 surrogates, which a JavaScript string can hold, are not modelled.
- `new String(guess)` on a non-string argument is not modelled. The guess is a string.
- The library's `bufferify` fallback is not modelled. That fallback treats a non-hex string as UTF-8 bytes and truncates odd-length hex. Here such a string fails to parse and the check fails. The proofs and root the function produces are always well-formed hex.
- The message text of the failure return (`Verification failed for ${leaf}`) is not modelled. `VerificationFailed` carries the leaf digest instead.
- `merkletreejs` options this code does not set are not modelled: `duplicateOdd`, `hashLeaves`, `isBitcoinTree`, `complete`, `fillDefaultHash`, and the `sortLeaves: false` / `sortPairs: false` paths.
- The board is one `array2` of 6×5 cells, where the source has an array of six row arrays.
- PlayerStore.Player.ReturnBoard: requires six rows of at least five letters and five statuses each, an assumption about the contract's answer that the source cannot show. In the JavaScript a short letter list yields `undefined` letters (reading past the end does not throw), and a short status list throws inside `ethers.BigNumber.from(undefined)`. Neither path is modelled.
- `BigNumber.toNumber()` overflow above 2^53 is not modelled. Status numbers are unbounded integers.
- `LetterState` comes from `src/components/types`, which is not part of this model. It appears as three constructors, not as its string values.
- Wallet connection, network switching, the Web3Modal / Coinbase / WalletConnect setup, `alert` and `console.log` are left out (`src/store/usePlayer.js:23-114`). They are I/O.
- Contract reads are left out: `getWins`, `getGameId`, `getCurrentRow`, `getRowValues`, `getLetterStates`, `getGameStatus`. They are network calls, and their answers are parameters here.
- The `try`/`catch` logging, `setLoader`, Pinia/Vue reactivity and hot-module reload are left out. They are UI plumbing.
- `vite.config.js` is left out. It is bundler configuration with no logic.
