/**
 Vocabulary shared by every component: 64-bit integer ranges, object digests,
 snapshot watermarks, store versions and the error classes of the protocol.
 */
module Basics {

  const MAX_UINT64: nat := 0xFFFF_FFFF_FFFF_FFFF
  const MAX_INT64: nat := 0x7FFF_FFFF_FFFF_FFFF

  /** How many directory levels a snapshot may have. */
  const MAX_LOOKUP_DEPTH: nat := 4096

  const MAX_METADATA_OBJECT_BYTES: nat := 16 * 1024 * 1024

  type Uint64 = n: nat | n <= MAX_UINT64

  datatype Option<+T> = None | Some(value: T)

  datatype Result<+T> = Ok(value: T) | Err(error: Error) {
    predicate IsFailure() {
      Err?
    }

    function PropagateFailure<U>(): Result<U>
      requires Err?
    {
      Err(error)
    }

    function Extract(): T
      requires Ok?
    {
      value
    }
  }

  /** The error classes that callers tell apart; one constructor per sentinel error. */
  datatype Error =
    | AccessDenied
    | Conflict            // a concurrent publication won
    | CorruptObject
    | Exhausted           // generation or revision space used up
    | Incompatible        // the store or journal broke its contract
    | Indeterminate       // an outcome could not be proved yet
    | InvalidPath
    | NotDirectory
    | NotFound
    | NotModified
    | Precondition        // a compare-and-swap condition failed, nothing was written
    | ResourceLimit
    | Rollback
    | SplitBrain
    | TrustStateRequired
    | Unavailable         // a request failed and its effect is unknown
    | Untrusted

  /** A content digest. Digests are collision free identifiers; zero is the unset digest. */
  datatype Digest = Digest(id: nat) {
    predicate IsZero() {
      id == 0
    }
  }

  /** One published snapshot, named by repository, generation and commit. */
  datatype Watermark = Watermark(repository: nat, generation: Uint64, commit: Digest)

  /** An object-store version: the compare-and-swap token and a diagnostic identifier. */
  datatype Version = Version(etag: string, versionId: string)

  const MAX_VERSION_TOKEN_BYTES := 4096

  predicate ValidVersion(version: Version) {
    && version.etag != ""
    && |version.etag| <= MAX_VERSION_TOKEN_BYTES
    && |version.versionId| <= MAX_VERSION_TOKEN_BYTES
  }

  /** Every binding of `small` is a binding of `large`. */
  ghost predicate Submap<K, V>(small: map<K, V>, large: map<K, V>) {
    forall k | k in small :: k in large && large[k] == small[k]
  }

  // ------------------------------------------------------------ sequences

  ghost predicate Distinct<T(!new)>(s: seq<T>) {
    forall i, j | 0 <= i < j < |s| :: s[i] != s[j]
  }

  lemma {:induction false} DistinctCounts<T(!new)>(s: seq<T>)
    requires Distinct(s)
    ensures forall x :: multiset(s)[x] <= 1
  {
    if s != [] {
      var last := |s| - 1;
      DistinctCounts(s[..last]);
      assert s == s[..last] + [s[last]];
      assert s[last] !in multiset(s[..last]);
    }
  }

  lemma {:induction false} CountsDistinct<T(!new)>(s: seq<T>)
    requires forall x :: multiset(s)[x] <= 1
    ensures Distinct(s)
  {
    if s != [] {
      var last := |s| - 1;
      assert s == s[..last] + [s[last]];
      assert forall x :: multiset(s[..last])[x] <= multiset(s)[x];
      CountsDistinct(s[..last]);
      forall i | 0 <= i < last
        ensures s[i] != s[last]
      {
        assert s[..last][i] == s[i] && s[i] in multiset(s[..last]);
        assert multiset(s)[s[last]] == multiset(s[..last])[s[last]] + 1;
      }
    }
  }

  lemma CountWithout<T>(s: seq<T>, j: nat)
    requires j < |s|
    ensures multiset(s[..j] + s[j + 1..]) == multiset(s) - multiset{s[j]}
  {
    assert s == s[..j] + [s[j]] + s[j + 1..];
    assert multiset(s) == multiset(s[..j]) + multiset{s[j]} + multiset(s[j + 1..]);
  }
}
