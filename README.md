# Lamport signatures and Merkle trees of client.py, in Dafny

`client.py` is a client script. It signs a message with a Lamport one-time
signature and checks it, and it builds a Merkle tree over a list of values.
This project models the algorithmic core of that script and proves what it
computes. The socket and console code around the core is not modelled.

The hash function (SHA-256, rendered by `hexdigest()`) stays abstract. Every
operation that hashes takes it as a parameter `h: Hasher`, which may be any total function
from strings to 64-character lowercase hex strings.

- `hashing.dfy`, module `Hashing`:
  - hex digits and digests;
  - `zero_padding`, as a specification function `ZeroPad` and as the loop
    `ZeroPadding` that the code runs;
  - the digest that signing and verification start from.
- `lamport.dfy`, module `Lamport`:
  - `char2bin`;
  - `generate_public_key`, `generate_signature` and `verify_signature`, as
    methods with the code's loops;
  - the selection of key cells by digest bits (`Select`) and the acceptance
    decision (`Accepts`), as functions;
  - lemmas that relate them: round trip, a signature checked against another
    message, a tampered element, short signatures.
- `merkle_spec.dfy`, module `MerkleSpec`:
  - the tree that `build_tree` links together, as a value (`Tree`);
  - the pairing of one level into the next (`Pair`), where a trailing odd node
    is paired with itself;
  - the recursion down to one root (`Build`);
  - the root hash over the leaf hashes alone (`MerkleRoot`);
  - lemmas about shape, hashes and leaf order.
- `merkle_tree.dfy`, module `MerkleTrees`:
  - the classes `MerkleNode` and `MerkleTree`, with the fields the code sets
    in place;
  - each node carries, as ghost state, the `Tree` it stands for and the set of
    nodes below it;
  - `Valid` is the parent-hash invariant: every node below is linked to its
    children as its tree says, and its set of nodes below is exactly itself
    and the sets of its children.
  - `BuildTree` is proved against `Build`. The constructor is proved to
    produce the root whose hash is `MerkleRoot` of the leaf hashes.
  - The stepping loop of `build_tree` is the method `PairNodes`, which
    `BuildTree` calls before it recurses.

## Model

| member | source | states |
|---|---|---|
| Hashing.ZeroPad | client.py:15-24 | an input shorter than 64 characters becomes exactly 64 characters: 64 - len '0's, then the input unchanged; an input of 64 or more characters is returned unchanged |
| Hashing.ZeroPadding | client.py:15-24 | the early return at 256 and the padding loop compute `ZeroPad` for every input, including lengths 64 to 255 where the loop runs zero times |
| Hashing.MessageDigest | client.py:49 | the padded digest of a message is the hash itself: padding leaves a 64-character digest alone |
| Lamport.HexValue | client.py:10 | int(c, 16) of a hex digit is below 16 |
| Lamport.CharToBin | client.py:9-10 | char2bin gives 4 characters, each '0' or '1', whose big-endian value is int(c, 16) |
| Lamport.CharToBinMsbFirst | client.py:9-10 | character j of char2bin(c) is bit 3 - j of int(c, 16): the most significant bit comes first |
| Lamport.GeneratePublicKey | client.py:39-44 | the result is a 2 x 256 grid whose cell [i][j] is the hash of private-key cell [i][j] |
| Lamport.SelectByDigest | client.py:52-58 | the nested loop appends, for bit 4i + j of the digest, the grid cell in row bit j of hex digit i at column 4i + j, for every hex digit, in bit order |
| Lamport.GenerateSignature | client.py:47-59 | the signature has exactly 256 elements and is the private-key selection by the bits of the padded message digest |
| Lamport.SignatureSelection | client.py:52-58 | signature element 4i + j is private-key cell [b][4i + j], where b is bit j, most significant first, of hex digit i of the digest |
| Lamport.CompareHashed | client.py:78-87 | the hashing loop and the comparison loop return 1 exactly when the signature is no longer than the chosen cells and every element hashes to the chosen cell at its position, and 0 otherwise |
| Lamport.VerifySignature | client.py:61-87 | verify_signature returns 1 exactly when `Accepts` holds: the signature has at most 256 elements and each hashes to the public-key cell chosen at its position; otherwise it returns 0 |
| Lamport.VerifySignatureStrict | client.py:61-87 | corrected verification returns 1 exactly when the signature has 256 elements and each hashes to the chosen public-key cell; a signature of any other length returns 0 |
| Lamport.RoundTrip | client.py:39-87 | a signature made with sk is accepted, strictly and as written, under the public key of sk, for every message |
| Lamport.OtherMessage | client.py:47-87 | a signature made for one message is accepted for another exactly when, at every bit where the two digests differ, the public key holds equal cells in both rows |
| Lamport.TamperedSignature | client.py:78-87 | replacing one element of a valid signature by a string with a different hash makes verification fail |
| Lamport.EmptySignatureAccepted | client.py:78-87 | as written, the empty signature is accepted for every message and key; the corrected decision rejects it |
| Lamport.TruncatedSignatureAccepted | client.py:78-87 | as written, every prefix of a valid signature is accepted; the corrected decision accepts only the full 256 elements |
| MerkleSpec.Pair | client.py:163-169 | a level of n nodes gives ceil(n/2) parents |
| MerkleSpec.PairAt | client.py:163-169 | parent k pairs nodes 2k and 2k + 1, or node 2k with itself when it is the last node of the level |
| MerkleSpec.PairHashes | client.py:163-169 | hashing the paired level is pairing the hashes: parent hashes depend on child hashes only |
| MerkleSpec.BuildHash | client.py:151-172 | the hash of the root built from a level is `MerkleRoot` of the level's hashes |
| MerkleSpec.RootOfLeaves | client.py:141-172 | the root hash of a tree built on leaf values is `MerkleRoot` of the leaf hashes |
| MerkleSpec.ThreeLeaves | client.py:151-185 | leaves "a", "b", "c" build the tree ((a, b), (c, c)), whose hash is h(h(h(a) + h(b)) + h(h(c) + h(c))) |
| MerkleSpec.BuildPerfect | client.py:151-172 | because an odd node is duplicated rather than promoted, every leaf of the root sits at the same depth, the number of pairing rounds |
| MerkleSpec.PairFlatten | client.py:163-169 | pairing keeps every leaf in order and adds one copy of the last node's leaves when the level is odd |
| MerkleSpec.BuildKeepsLeaves | client.py:151-172 | the leaves of a level are, in order, the first leaves of the root built from it |
| MerkleSpec.LeavesInOrder | client.py:141-172 | the leaf values, in input order, are the leftmost leaves of the root |
| MerkleTrees.MerkleNode.constructor | client.py:128-138 | a new node is a leaf with no children whose hash is the hash of its value |
| MerkleTrees.ValidNode | client.py:128-185 | a node satisfying the parent-hash invariant holds the value and the hash of the tree it stands for |
| MerkleTrees.MerkleTree.constructor | client.py:141-147 | one fresh valid leaf per value, in order, no two sharing a node, each hashing its value; the root is the tree `Build` makes of the leaves, and its hash is `MerkleRoot` of the leaf hashes; every leaf node is reached from the root through child links, and a single leaf is the root itself |
| MerkleTrees.MerkleTree.MakeLeaves | client.py:144 | one fresh leaf node per value, in order, each valid and hashing its value; no two values share a node |
| MerkleTrees.MerkleTree.BuildTree | client.py:151-172 | on a non-empty level of valid nodes, the returned root is valid and stands for `Build` of the level's trees; a single node is returned itself as the root; every node of the level, and every node below it, is reached from the root through child links |
| MerkleTrees.MerkleTree.PairNodes | client.py:159-169 | the loop yields ceil(n/2) valid parents that stand, in order, for `Pair` of the level's trees; parent k links node 2k as its left child and node 2k + 1, or node 2k again when it is the last, as its right child, and holds the nodes below both |
| MerkleTrees.MerkleTree.CreateParentNode | client.py:175-180 | a fresh valid node linked to both children, holding their values concatenated, whose hash is the hash of their hashes concatenated, left first |
| MerkleTrees.MerkleTree.CalculateHash | client.py:182-185 | the parent hash is the Merkle root of the two child hashes, left first |

## Left out

- Socket and console I/O are not modelled: the connection, `input`, the
  `print` calls (including the two inside `generate_signature`) and the stub
  `send`. They carry no behaviour of the core.
- `generate_private_key` is not modelled, because it draws from
  `secrets.token_bytes`. The private key is a parameter: any grid of strings
  with the cells the code indexes.
- SHA-256 and `str.encode` are not modelled. The hash is an arbitrary function
  into 64-character lowercase hex strings. Nothing is assumed about
  collisions, so no lemma claims unforgeability.
- Python's `str(value)` of a non-string leaf is not modelled. Leaf values are
  strings, for which `str` is the identity. The script's own demo feeds lists,
  whose rendering is left out.
- The top-level script that wires the functions to I/O is not modelled.
- Lamport.HexValue: `int(c, 16)` also accepts non-ASCII decimal digits; the
  model reads only ASCII hex digits, the only ones a hexdigest contains.
- Lamport.GeneratePublicKey: the code starts from a grid of integer zeros; the
  model starts from empty strings. Every cell is overwritten before the grid
  is returned, so the result is the same.
- Lamport.GeneratePublicKey, Lamport.GenerateSignature, Lamport.VerifySignature:
  the model requires the whole key grid, two rows of at least 256 cells
  (`CoversKeyGrid`), of `sk` and of `pk`. The code fails only on a missing
  cell it reads. `generate_public_key` reads all 512 cells. `generate_signature`
  reads `private_key[0][255]` and then only the cells the digest bits select.
  `verify_signature` reads only the public-key cells the digest bits select.
  A short row 1 still signs, and a short row of either key still verifies, a
  message whose digest never selects a missing cell; a row 0 shorter than 256
  cells fails at client.py:50 for every message.
  Every call in the script passes full 2 x 256 grids. The code has no error
  value for a short grid.
- Lamport.VerifySignature: a signature longer than 256 elements whose first
  256 match raises IndexError in the code. The requires excludes exactly that
  case. The code does not check the length. A stricter decision would reject
  any length other than 256; `VerifySignatureStrict` is that decision.
- MerkleTrees.MerkleTree.constructor: on an empty list of values the code
  recurses until Python's recursion limit. The model requires a non-empty
  list. The code has no error value for an empty list.

## Findings

| source | as written | input that shows it | evidently intended | confidence | as-written member | corrected member |
|---|---|---|---|---|---|---|
| client.py:83-87 | the comparison loop runs over the signature's own length, so only that many positions are compared | any prefix of a valid signature, down to the empty signature `[]`, returns 1 | return 1 only for a signature of exactly 256 elements that matches everywhere | not executed | Lamport.TruncatedSignatureAccepted | Lamport.VerifySignatureStrict |
