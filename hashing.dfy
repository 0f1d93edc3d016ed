/**
  Hashes and the shared vocabulary of the log: node coordinates, tree heads,
  records and errors.

  The log hashes with SHA-256 and renders every hash as a lower-case hex
  string. SHA-256 itself is not modelled: every operation takes the digest as
  a parameter `d`, so each property proved here holds for every digest
  function. The one fact some proofs use about it is that it never yields the
  empty string, which the log uses to mean "no node" (`NonEmptyDigest`).
*/
module Hashing {
  import opened Wrappers

  /** A hex-encoded digest; "" stands for "no node" and for the empty log's root. */
  type Hash = string

  /** A digest function on hex strings. */
  type Digest = string -> string

  /** SHA-256 rendered as hex is never empty. */
  ghost predicate NonEmptyDigest(d: Digest) {
    forall s :: d(s) != ""
  }

  /** Hash of an interior node: the digest of the two children's hex strings, concatenated. */
  function NodeHash(d: Digest, left: Hash, right: Hash): (h: Hash)
    ensures NonEmptyDigest(d) ==> h != ""
  {
    d(left + right)
  }

  /**
    How a parent is rebuilt from its children when the right child may be
    missing: a missing ("") right child leaves the left one unchanged.
  */
  function Combine(d: Digest, left: Hash, right: Hash): (h: Hash)
    ensures right == "" ==> h == left
    ensures right != "" ==> h == NodeHash(d, left, right)
    ensures NonEmptyDigest(d) && left != "" ==> h != ""
  {
    if right == "" then left else NodeHash(d, left, right)
  }

  /**
    Record serialisation (MessagePack in the log), with serialised bytes
    modelled as characters. `decode` may fail.
  */
  datatype Codec<!T> = Codec(encode: T -> string, decode: string -> Option<T>)

  /** Decoding what was encoded gives back the value. */
  ghost predicate RoundTrips<T(!new)>(c: Codec<T>) {
    forall x :: c.decode(c.encode(x)) == Some(x)
  }

  /** The leaf hash of a record: the digest of its serialisation. */
  function LeafHash<T>(d: Digest, c: Codec<T>, record: T): (h: Hash)
    ensures NonEmptyDigest(d) ==> h != ""
  {
    d(c.encode(record))
  }

  /** A tree node, as (level, index at that level); level 0 holds the leaves. */
  type Pos = (nat, nat)

  /** A tree head: the number of records and the root hash over them. */
  datatype LogTree = LogTree(size: nat, hash: Hash)

  /** A record as the client sees it: its id (append order) and its leaf hash. */
  datatype Record = Record(id: nat, hash: Hash)

  datatype LogError =
    | InvalidHeight(level: nat)
    | InvalidIndex(level: nat, index: nat)
    | UnexpectedEof
    | DecodeFailed
    | AssertionPanic
}
