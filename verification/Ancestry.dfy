/**
 The immutable commit graph and the two ancestry walks over it: the consumer's
 (consumer.go) and the publisher's (publisher.go).
 */
module Ancestry {
  import opened Basics

  const OBJECT_FORMAT := 1
  const MAX_COMMIT_WALK: nat := 1_000_000

  datatype Commit = Commit(format: int, generation: Uint64, parent: Option<Digest>, root: Digest)

  /** Content-addressed commits: a digest names at most one manifest, forever. */
  type Commits = map<Digest, Commit>

  predicate ValidCommit(commit: Commit, generation: nat) {
    && commit.format == OBJECT_FORMAT
    && commit.generation == generation
    && !commit.root.IsZero()
    && if generation == 1 then commit.parent.None? else commit.parent.Some? && !commit.parent.value.IsZero()
  }

  /**
   The commit reached from `digest`, a commit of generation `generation`, by following
   `steps` parents; None when a manifest on the way is missing or has the wrong generation.
   */
  function Ancestor(commits: Commits, digest: Digest, generation: nat, steps: nat): Option<Digest>
    requires steps <= generation
    decreases steps
  {
    if steps == 0 then Some(digest)
    else if digest !in commits || !ValidCommit(commits[digest], generation) || commits[digest].parent.None? then None
    else Ancestor(commits, commits[digest].parent.value, generation - 1, steps - 1)
  }

  /** `candidate` is a proper descendant of `anchor` along the parent chain. */
  predicate Descends(commits: Commits, candidate: Watermark, anchor: Watermark) {
    && candidate.repository == anchor.repository
    && candidate.generation > anchor.generation
    && Ancestor(commits, candidate.commit, candidate.generation, candidate.generation - anchor.generation)
       == Some(anchor.commit)
  }

  ghost predicate SameOrDescends(commits: Commits, candidate: Watermark, anchor: Watermark) {
    candidate == anchor || Descends(commits, candidate, anchor)
  }

  /** Following `first` and then `second` parents is following their sum. */
  lemma {:induction false} AncestorCompose(commits: Commits, digest: Digest, generation: nat, first: nat, second: nat)
    requires first + second <= generation
    ensures Ancestor(commits, digest, generation, first + second)
         == match Ancestor(commits, digest, generation, first)
            case None => None
            case Some(middle) => Ancestor(commits, middle, generation - first, second)
    decreases first
  {
    if first != 0 && digest in commits && ValidCommit(commits[digest], generation) && commits[digest].parent.Some? {
      AncestorCompose(commits, commits[digest].parent.value, generation - 1, first - 1, second);
    }
  }

  /** Uploading more commits never changes an ancestor that was already resolved. */
  lemma {:induction false} AncestorStable(small: Commits, large: Commits, digest: Digest, generation: nat, steps: nat)
    requires Submap(small, large) && steps <= generation
    requires Ancestor(small, digest, generation, steps).Some?
    ensures Ancestor(large, digest, generation, steps) == Ancestor(small, digest, generation, steps)
    decreases steps
  {
    if steps != 0 {
      AncestorStable(small, large, small[digest].parent.value, generation - 1, steps - 1);
    }
  }

  lemma DescendsStable(small: Commits, large: Commits, candidate: Watermark, anchor: Watermark)
    requires Submap(small, large) && Descends(small, candidate, anchor)
    ensures Descends(large, candidate, anchor)
  {
    AncestorStable(small, large, candidate.commit, candidate.generation, candidate.generation - anchor.generation);
  }

  lemma DescendsTransitive(commits: Commits, a: Watermark, b: Watermark, c: Watermark)
    requires Descends(commits, a, b) && Descends(commits, b, c)
    ensures Descends(commits, a, c)
  {
    AncestorCompose(commits, a.commit, a.generation, a.generation - b.generation, b.generation - c.generation);
  }

  lemma SameOrDescendsTransitive(commits: Commits, a: Watermark, b: Watermark, c: Watermark)
    requires SameOrDescends(commits, a, b) && SameOrDescends(commits, b, c)
    ensures SameOrDescends(commits, a, c)
  {
    if a != b && b != c {
      DescendsTransitive(commits, a, b, c);
    }
  }

  datatype Walk = Accepted | Rejected(error: Error)

  /** The first manifest on the way that cannot be read or is not the one it should be. */
  function Obstacle(commits: Commits, digest: Digest, generation: nat, steps: nat): Option<Error>
    requires steps < generation
    decreases steps
  {
    if steps == 0 then None
    else if digest !in commits then Some(Unavailable)
    else if !ValidCommit(commits[digest], generation) then Some(CorruptObject)
    else Obstacle(commits, commits[digest].parent.value, generation - 1, steps - 1)
  }

  /** Either nothing is in the way and the ancestor is reached, or there is a first obstacle. */
  lemma {:induction false} ObstacleExact(commits: Commits, digest: Digest, generation: nat, steps: nat)
    requires steps < generation
    ensures Obstacle(commits, digest, generation, steps).None? <==> Ancestor(commits, digest, generation, steps).Some?
    decreases steps
  {
    if steps != 0 && digest in commits && ValidCommit(commits[digest], generation) {
      ObstacleExact(commits, commits[digest].parent.value, generation - 1, steps - 1);
    }
  }

  /** The one answer of an ancestry walk, for every graph, candidate and anchor. */
  function WalkAnswer(readable: Commits, candidate: Watermark, anchor: Watermark): Walk
    requires 0 < anchor.generation < candidate.generation
  {
    var distance := candidate.generation - anchor.generation;
    if distance > MAX_COMMIT_WALK then Rejected(ResourceLimit)
    else match Obstacle(readable, candidate.commit, candidate.generation, distance)
         case Some(error) => Rejected(error)
         case None =>
           if Ancestor(readable, candidate.commit, candidate.generation, distance) == Some(anchor.commit) then Accepted
           else Rejected(SplitBrain)
  }

  /** A walk is accepted exactly by descent within the bound, and a split brain is a complete walk elsewhere. */
  lemma WalkMeaning(readable: Commits, candidate: Watermark, anchor: Watermark)
    requires 0 < anchor.generation < candidate.generation
    ensures var distance := candidate.generation - anchor.generation;
            var reached := Ancestor(readable, candidate.commit, candidate.generation, distance);
            var walk := WalkAnswer(readable, candidate, anchor);
            && (walk == Accepted <==> distance <= MAX_COMMIT_WALK && reached == Some(anchor.commit))
            && (walk == Rejected(SplitBrain) <==>
                distance <= MAX_COMMIT_WALK && reached.Some? && reached != Some(anchor.commit))
  {
    var distance := candidate.generation - anchor.generation;
    ObstacleExact(readable, candidate.commit, candidate.generation, distance);
    ObstacleKinds(readable, candidate.commit, candidate.generation, distance);
  }

  lemma {:induction false} ObstacleKinds(commits: Commits, digest: Digest, generation: nat, steps: nat)
    requires steps < generation
    ensures Obstacle(commits, digest, generation, steps) in {None, Some(Unavailable), Some(CorruptObject)}
    decreases steps
  {
    if steps != 0 && digest in commits && ValidCommit(commits[digest], generation) {
      ObstacleKinds(commits, commits[digest].parent.value, generation - 1, steps - 1);
    }
  }

  /**
   The consumer's walk. `readable` holds the commits whose reads succeed during this
   call; a missing one stands for a failed read.
   */
  method ValidateDescendant(readable: Commits, reference: Watermark, commit: Commit, anchor: Watermark)
    returns (walk: Walk)
    requires 0 < anchor.generation < reference.generation
    requires reference.commit in readable && readable[reference.commit] == commit
    requires ValidCommit(commit, reference.generation)
    ensures walk == WalkAnswer(readable, reference, anchor)
  {
    if reference.generation - anchor.generation > MAX_COMMIT_WALK {
      return Rejected(ResourceLimit);
    }
    var parent := commit.parent;
    var generation := reference.generation - 1;
    while generation > anchor.generation
      invariant anchor.generation <= generation < reference.generation
      invariant parent.Some? && !parent.value.IsZero()
      invariant Ancestor(readable, reference.commit, reference.generation, reference.generation - anchor.generation)
             == Ancestor(readable, parent.value, generation, generation - anchor.generation)
      invariant Obstacle(readable, reference.commit, reference.generation, reference.generation - anchor.generation)
             == Obstacle(readable, parent.value, generation, generation - anchor.generation)
    {
      if parent.None? || parent.value.IsZero() {
        return Rejected(SplitBrain);
      }
      if parent.value !in readable {
        return Rejected(Unavailable);
      }
      var ancestor := readable[parent.value];
      if !ValidCommit(ancestor, generation) {
        return Rejected(CorruptObject);
      }
      parent := ancestor.parent;
      generation := generation - 1;
    }
    if parent.None? || parent.value != anchor.commit {
      return Rejected(SplitBrain);
    }
    return Accepted;
  }

  /** The publisher's walk: it answers for every pair, also when the candidate is not newer. */
  method ValidatePublicationDescendant(readable: Commits, reference: Watermark, commit: Commit, anchor: Watermark)
    returns (walk: Walk)
    requires 0 < anchor.generation
    requires reference.commit in readable && readable[reference.commit] == commit
    requires ValidCommit(commit, reference.generation)
    ensures reference.generation <= anchor.generation ==> walk == Rejected(SplitBrain)
    ensures reference.generation > anchor.generation ==> walk == WalkAnswer(readable, reference, anchor)
  {
    if reference.generation <= anchor.generation {
      return Rejected(SplitBrain);
    }
    if reference.generation - anchor.generation > MAX_COMMIT_WALK {
      return Rejected(ResourceLimit);
    }
    var parent := commit.parent;
    var generation := reference.generation - 1;
    while generation > anchor.generation
      invariant anchor.generation <= generation < reference.generation
      invariant parent.Some? && !parent.value.IsZero()
      invariant Ancestor(readable, reference.commit, reference.generation, reference.generation - anchor.generation)
             == Ancestor(readable, parent.value, generation, generation - anchor.generation)
      invariant Obstacle(readable, reference.commit, reference.generation, reference.generation - anchor.generation)
             == Obstacle(readable, parent.value, generation, generation - anchor.generation)
    {
      if parent.None? || parent.value.IsZero() {
        return Rejected(SplitBrain);
      }
      if parent.value !in readable {
        return Rejected(Unavailable);
      }
      var ancestor := readable[parent.value];
      if !ValidCommit(ancestor, generation) {
        return Rejected(CorruptObject);
      }
      parent := ancestor.parent;
      generation := generation - 1;
    }
    if parent.None? || parent.value != anchor.commit {
      return Rejected(SplitBrain);
    }
    return Accepted;
  }
}
