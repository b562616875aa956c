/** The object store's vocabulary: file contents, identifiers, file trees and
    the digest that names stored objects. */
module Objects {
  import opened Wrappers

  type byte = b: int | 0 <= b < 256

  /** Contents of a file, as stored in a blob. */
  type Bytes = seq<byte>

  /** A digest of a stored object, as its hexadecimal text. */
  type Id = string

  /** A file name in the working directory. */
  type Path = string

  /** A snapshot of tracked files: file name to blob id. */
  type Tree = map<Path, Id>

  /** What the digest is applied to. A blob is named by its bytes; a commit by
      its serialized fields. `blobs` is None when the file references were not
      yet assigned at the moment the record was hashed. */
  datatype Preimage =
    | BlobContent(content: Bytes)
    | CommitFields(message: string, timestamp: string, parents: seq<Option<Id>>, blobs: Option<Tree>)

  /** The digest function (SHA-1 of the serialized object in the source). It is
      left uninterpreted: every operation that names an object takes it as a
      parameter, and collision-freedom is only ever a hypothesis. */
  type Hasher = Preimage -> Id

  /** The hash cannot map two different objects to one id. */
  ghost predicate Injective(hash: Hasher) {
    forall a: Preimage, b: Preimage :: hash(a) == hash(b) ==> a == b
  }

  function BlobId(hash: Hasher, content: Bytes): Id {
    hash(BlobContent(content))
  }

  /** Every stored blob sits under the digest of its own content. */
  ghost predicate ContentAddressed(blobs: map<Id, Bytes>, hash: Hasher) {
    forall id | id in blobs :: BlobId(hash, blobs[id]) == id
  }

  /** Map lookup that reports a missing key, like Java's `HashMap.get`. */
  function Get<K, V>(m: map<K, V>, k: K): (r: Option<V>)
    ensures r.Some? <==> k in m
    ensures r.Some? ==> r.value == m[k]
  {
    if k in m then Some(m[k]) else None
  }

  predicate IsAscii(s: string) {
    forall i | 0 <= i < |s| :: s[i] as int < 128
  }

  /** The UTF-8 encoding of a string of ASCII characters: one byte per character. */
  function AsciiBytes(s: string): (r: Bytes)
    requires IsAscii(s)
    ensures |r| == |s|
    ensures forall i | 0 <= i < |s| :: r[i] == s[i] as int
  {
    seq(|s|, i requires 0 <= i < |s| && IsAscii(s) => s[i] as int)
  }

  lemma AsciiBytesAppend(a: string, b: string)
    requires IsAscii(a) && IsAscii(b)
    ensures IsAscii(a + b)
    ensures AsciiBytes(a + b) == AsciiBytes(a) + AsciiBytes(b)
  {
    assert forall i | 0 <= i < |a + b| :: (a + b)[i] == if i < |a| then a[i] else b[i - |a|];
  }
}
