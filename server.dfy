/**
 * The server's in-memory state (internal/server/server.go): the status of the
 * background work for each prompt request, and the two registries of locks, one lock
 * per Claude session and one per repository. Only the registries are modelled; what a
 * lock does while it is held (blocking other goroutines) is not.
 */
module Server {

  /**
   * The status of a prompt request's background work. `Unset` is the empty status
   * the map gives for a request it holds no entry for.
   */
  datatype Status = Unset | Cloning | Pulling | Ready | Error | Processing | Responded

  /** The text the status is stored and rendered as. */
  function Name(s: Status): (n: string)
    ensures n == "" <==> s == Unset
  {
    match s
    case Unset => ""
    case Cloning => "cloning"
    case Pulling => "pulling"
    case Ready => "ready"
    case Error => "error"
    case Processing => "processing"
    case Responded => "responded"
  }

  /** Different statuses are stored as different texts. */
  lemma NameInjective(a: Status, b: Status)
    ensures Name(a) == Name(b) ==> a == b
  {
  }

  /** repoStatusEntry */
  datatype Entry = Entry(status: Status, error: string)

  /** The zero value of an entry: what a lookup of an absent key gives. */
  const Zero := Entry(Unset, "")

  /** A sync.Mutex, identified by the object it is. */
  class Mutex {
    constructor ()
    {
    }
  }

  class Server {
    /** repoStatus: prompt request id to the status of its background work. */
    var repoStatus: map<int, Entry>
    /** sessionMu: Claude session id to the lock that serializes its calls. */
    var sessionMu: map<string, Mutex>
    /** repoMu: repository URL to the lock that serializes its clones and pulls. */
    var repoMu: map<string, Mutex>

    constructor ()
      ensures repoStatus == map[] && sessionMu == map[] && repoMu == map[]
    {
      repoStatus, sessionMu, repoMu := map[], map[], map[];
    }

    /** getRepoStatus: the stored entry, or the zero entry when there is none. */
    function GetRepoStatus(prId: int): (e: Entry)
      reads this
      ensures prId in repoStatus ==> e == repoStatus[prId]
      ensures prId !in repoStatus ==> e == Zero
      ensures e.status == Unset ==> prId !in repoStatus || repoStatus[prId].status == Unset
    {
      if prId in repoStatus then repoStatus[prId] else Zero
    }

    /** setRepoStatus: replaces the request's entry and touches nothing else. */
    method SetRepoStatus(prId: int, status: Status, err: string)
      modifies this
      ensures repoStatus == old(repoStatus)[prId := Entry(status, err)]
      ensures GetRepoStatus(prId) == Entry(status, err)
      ensures forall id | id != prId :: GetRepoStatus(id) == old(GetRepoStatus(id))
      ensures sessionMu == old(sessionMu) && repoMu == old(repoMu)
    {
      repoStatus := repoStatus[prId := Entry(status, err)];
    }

    /**
     * repoStatus.CompareAndSwap: replaces the entry only when one is stored and it
     * equals `expected` in both fields; reports whether it did.
     */
    method CompareAndSwap(prId: int, expected: Entry, replacement: Entry) returns (swapped: bool)
      modifies this
      ensures swapped <==> prId in old(repoStatus) && old(repoStatus)[prId] == expected
      ensures swapped ==> repoStatus == old(repoStatus)[prId := replacement]
      ensures !swapped ==> repoStatus == old(repoStatus)
      ensures sessionMu == old(sessionMu) && repoMu == old(repoMu)
    {
      swapped := prId in repoStatus && repoStatus[prId] == expected;
      if swapped {
        repoStatus := repoStatus[prId := replacement];
      }
    }

    /** repoStatus.Delete: afterwards the request reads as the zero entry. */
    method DeleteStatus(prId: int)
      modifies this
      ensures repoStatus == old(repoStatus) - {prId}
      ensures GetRepoStatus(prId) == Zero
      ensures sessionMu == old(sessionMu) && repoMu == old(repoMu)
    {
      repoStatus := repoStatus - {prId};
    }

    /**
     * lockSession: the session's lock, made and registered on first use; every later
     * call for the same session gets the same lock. Locks are never removed.
     */
    method LockSession(sessionId: string) returns (mu: Mutex)
      modifies this
      ensures sessionId in old(sessionMu) ==> mu == old(sessionMu)[sessionId] && sessionMu == old(sessionMu)
      ensures sessionId !in old(sessionMu) ==> fresh(mu) && sessionMu == old(sessionMu)[sessionId := mu]
      ensures sessionId in sessionMu && sessionMu[sessionId] == mu
      ensures repoStatus == old(repoStatus) && repoMu == old(repoMu)
    {
      if sessionId in sessionMu {
        mu := sessionMu[sessionId];
      } else {
        mu := new Mutex();
        sessionMu := sessionMu[sessionId := mu];
      }
    }

    /** lockRepo: the same registry discipline, for repositories. */
    method LockRepo(repoURL: string) returns (mu: Mutex)
      modifies this
      ensures repoURL in old(repoMu) ==> mu == old(repoMu)[repoURL] && repoMu == old(repoMu)
      ensures repoURL !in old(repoMu) ==> fresh(mu) && repoMu == old(repoMu)[repoURL := mu]
      ensures repoURL in repoMu && repoMu[repoURL] == mu
      ensures repoStatus == old(repoStatus) && sessionMu == old(sessionMu)
    {
      if repoURL in repoMu {
        mu := repoMu[repoURL];
      } else {
        mu := new Mutex();
        repoMu := repoMu[repoURL := mu];
      }
    }
  }

  /**
   * Two calls for the same session hand out one lock, whatever happens in between with
   * other sessions and repositories; so the session's Claude calls are serialized.
   */
  method SameSessionSameLock(s: Server, session: string, other: string, url: string)
    returns (first: Mutex, second: Mutex)
    modifies s
    ensures first == second
  {
    first := s.LockSession(session);
    var _ := s.LockSession(other);
    var _ := s.LockRepo(url);
    second := s.LockSession(session);
  }

  /** A compare-and-swap that has succeeded once fails for the same expected entry. */
  method SecondSwapFails(s: Server, prId: int, expected: Entry, replacement: Entry)
    returns (first: bool, second: bool)
    requires expected != replacement
    modifies s
    ensures first <==> prId in old(s.repoStatus) && old(s.repoStatus)[prId] == expected
    ensures !second
  {
    first := s.CompareAndSwap(prId, expected, replacement);
    second := s.CompareAndSwap(prId, expected, replacement);
  }
}
