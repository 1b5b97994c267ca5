/** Entities of the integration request queue (internal/integrationqueue/types.go). */
module IntegrationTypes {
  import opened Wrappers

  const MAX_UINT64 := 0xFFFF_FFFF_FFFF_FFFF

  type Uint64 = x: int | 0 <= x <= MAX_UINT64

  /** Increment of a 64-bit counter: the largest value wraps to zero. */
  function Bump(x: Uint64): Uint64 {
    if x == MAX_UINT64 then 0 else x + 1
  }

  /** An instant in time; 0 is the zero time. */
  type Instant = nat

  /** An instant read from the clock, which is never the zero time. */
  type Reading = x: nat | x != 0 witness 1

  datatype Owner = Owner(actor: string, host: string, kind: string)

  datatype Generation = Generation(
    task: string, workType: string, purpose: string, source: string, branch: string,
    worktree: string, owner: Owner, startedAt: Instant)

  datatype Spec = Spec(
    id: string, idempotencyKey: string, repositoryId: string, repositoryPath: string,
    commonDir: string, expectedTaskSha: string, expectedSourceSha: string, source: string,
    target: string, gateProfile: string, resource: string, generation: Generation, owner: Owner)

  /** A state is a string in the source; Other holds every string that is no state name. */
  datatype State =
    | Queued | Admitted | RevalidationRequired | Running
    | Succeeded | Failed | Cancelled | Other(name: string)

  datatype Claim = Claim(owner: Owner, generation: Generation, claimedAt: Instant, pid: int, host: string)

  datatype Liveness = Live | Dead | Unknown

  datatype Request = Request(
    spec: Spec, state: State, sequence: Uint64, revision: Uint64, createdAt: Instant,
    updatedAt: Instant, claim: Option<Claim>, lastError: string, lastExitCode: int)

  /** The durable file: JSON persistence is taken to be the identity. */
  datatype Persisted = Persisted(nextSequence: Uint64, requests: seq<Request>)

  datatype Outcome = Outcome(state: State, reason: string, exitCode: int)

  /** Holding the resource: at most one such request per resource may exist. */
  predicate Active(s: State) {
    s == Admitted || s == Running
  }

  predicate Terminal(s: State) {
    s == Succeeded || s == Failed || s == Cancelled
  }

  /** The three states in which a request carries a claim. */
  predicate ClaimHolding(s: State) {
    s == Admitted || s == Running || s == RevalidationRequired
  }
}
