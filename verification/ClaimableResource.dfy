/**
 * A resource that is granted to one claimer at a time, from an action of the event dispatcher. A claim may be made,
 * withdrawn or moved at any time, also from the callback that tells that a claim is granted: that callback is the
 * last thing a grant does, so that what it does comes after it.
 */
module ClaimableResource {

  /** Each claim gets the next number, and keeps it when it is moved. */
  datatype Ticket = Ticket(number: nat, urgent: bool)

  /**
   * What was granted, in that order, followed by what is pending. No claim occurs twice; claims that are not
   * urgent are granted in the order in which they were made, and urgent claims go first, the latest one in front.
   */
  ghost predicate Orderly(granted: seq<Ticket>, pending: seq<Ticket>, next: nat) {
    InOrder(granted + pending, next) && UrgentFirst(pending)
  }

  ghost predicate InOrder(all: seq<Ticket>, next: nat) {
    && (forall i | 0 <= i < |all| :: all[i].number < next)
    && (forall i, j | 0 <= i < j < |all| :: all[i].number != all[j].number)
    && (forall i, j | 0 <= i < j < |all| && !all[i].urgent && !all[j].urgent :: all[i].number < all[j].number)
  }

  ghost predicate UrgentFirst(pending: seq<Ticket>) {
    forall i, j | 0 <= i < j < |pending| && pending[j].urgent :: pending[i].urgent && pending[i].number > pending[j].number
  }

  function Enqueued<T>(s: seq<T>, x: T, urgent: bool): (r: seq<T>)
    ensures |r| == |s| + 1
  {
    if urgent then [x] + s else s + [x]
  }

  lemma Queued(granted: seq<Ticket>, pending: seq<Ticket>, next: nat, urgent: bool)
    requires Orderly(granted, pending, next)
    ensures Orderly(granted, Enqueued(pending, Ticket(next, urgent), urgent), next + 1)
  {
    var ticket := Ticket(next, urgent);
    if urgent {
      UrgentInOrder(granted, pending, next);
      UrgentStaysFirst(granted, pending, next);
      assert granted + ([ticket] + pending) == granted + [ticket] + pending;
    } else {
      assert granted + (pending + [ticket]) == granted + pending + [ticket];
    }
  }

  lemma UrgentInOrder(before: seq<Ticket>, after: seq<Ticket>, next: nat)
    requires InOrder(before + after, next)
    ensures InOrder(before + [Ticket(next, true)] + after, next + 1)
  {
    var was, now, k := before + after, before + [Ticket(next, true)] + after, |before|;
    forall i | 0 <= i < |now|
      ensures now[i] == if i == k then Ticket(next, true) else was[Skipping(i, k)]
    {
    }
    forall i, j | 0 <= i < j < |now|
      ensures now[i].number != now[j].number
      ensures !now[i].urgent && !now[j].urgent ==> now[i].number < now[j].number
    {
      assert i != k && j != k ==> Skipping(i, k) < Skipping(j, k);
    }
  }

  function Skipping(i: nat, k: nat): int {
    if i < k then i else i - 1
  }

  lemma UrgentStaysFirst(granted: seq<Ticket>, pending: seq<Ticket>, next: nat)
    requires Orderly(granted, pending, next)
    ensures UrgentFirst([Ticket(next, true)] + pending)
  {
    var now := [Ticket(next, true)] + pending;
    forall i, j | 0 <= i < j < |now| && now[j].urgent
      ensures now[i].urgent && now[i].number > now[j].number
    {
      assert now[j] == pending[j - 1] == (granted + pending)[|granted| + j - 1];
      if i > 0 {
        assert now[i] == pending[i - 1];
      }
    }
  }

  lemma GrantedFirst(granted: seq<Ticket>, pending: seq<Ticket>, next: nat)
    requires pending != [] && Orderly(granted, pending, next)
    ensures Orderly(granted + [pending[0]], pending[1..], next)
  {
    assert granted + [pending[0]] + pending[1..] == granted + pending;
  }

  lemma Withdrawn(granted: seq<Ticket>, pending: seq<Ticket>, next: nat, k: nat)
    requires k < |pending| && Orderly(granted, pending, next)
    ensures Orderly(granted, Erased(pending, k), next)
  {
    var was, now := granted + pending, granted + Erased(pending, k);
    forall i | 0 <= i < |now|
      ensures now[i] == was[if i < |granted| + k then i else i + 1]
    {
    }
  }

  /** Of two tickets that are not urgent, the one that was granted was drawn before the one that is pending. */
  lemma GrantedBeforePending(granted: seq<Ticket>, pending: seq<Ticket>, next: nat, served: Ticket, waiting: Ticket)
    requires Orderly(granted, pending, next)
    requires served in granted && waiting in pending && !served.urgent && !waiting.urgent
    ensures served.number < waiting.number
  {
    var i :| 0 <= i < |granted| && granted[i] == served;
    var j :| 0 <= j < |pending| && pending[j] == waiting;
    var all := granted + pending;
    assert all[i] == served && all[|granted| + j] == waiting;
  }

  function Erased<T>(s: seq<T>, k: nat): (r: seq<T>)
    requires k < |s|
    ensures |r| == |s| - 1
  {
    s[..k] + s[k + 1..]
  }

  function IndexOf<T(==)>(s: seq<T>, x: T): (k: nat)
    requires x in s
    ensures k < |s| && s[k] == x && x !in s[..k]
  {
    if s[0] == x then 0 else 1 + IndexOf(s[1..], x)
  }

  function Without<T(==)>(s: seq<T>, x: T): seq<T> {
    if x in s then Erased(s, IndexOf(s, x)) else s
  }

  function Substituted<T(==)>(s: seq<T>, x: T, y: T): seq<T> {
    if x in s then s[IndexOf(s, x) := y] else s
  }

  lemma SubstitutedAt<T>(s: seq<T>, x: T, y: T)
    requires Distinct(s)
    ensures |Substituted(s, x, y)| == |s|
    ensures forall i | 0 <= i < |s| :: Substituted(s, x, y)[i] == if s[i] == x then y else s[i]
  {
  }

  ghost predicate Distinct<T>(s: seq<T>) {
    forall i, j | 0 <= i < j < |s| :: s[i] != s[j]
  }

  lemma EnqueuedDistinct<T>(s: seq<T>, x: T, urgent: bool)
    requires Distinct(s) && x !in s
    ensures Distinct(Enqueued(s, x, urgent)) && forall y :: y in Enqueued(s, x, urgent) <==> y in s || y == x
  {
  }

  lemma ErasedDistinct<T>(s: seq<T>, k: nat)
    requires k < |s| && Distinct(s)
    ensures Distinct(Erased(s, k)) && forall x :: x in Erased(s, k) <==> x in s && x != s[k]
  {
    var r := Erased(s, k);
    forall x | x in s && x != s[k]
      ensures x in r
    {
      var i :| 0 <= i < |s| && s[i] == x;
      assert r[if i < k then i else i - 1] == x;
    }
  }

  lemma FirstErased<T>(s: seq<T>)
    requires s != [] && Distinct(s)
    ensures Distinct(s[1..]) && forall x :: x in s[1..] <==> x in s && x != s[0]
  {
    assert Erased(s, 0) == s[1..];
    ErasedDistinct(s, 0);
  }

  lemma ReplacedDistinct<T>(s: seq<T>, k: nat, y: T)
    requires k < |s| && Distinct(s) && y !in s
    ensures Distinct(s[k := y]) && forall x :: x in s[k := y] <==> (x in s && x != s[k]) || x == y
  {
    var r := s[k := y];
    forall x | x in s && x != s[k]
      ensures x in r
    {
      var i :| 0 <= i < |s| && s[i] == x;
      assert r[i] == x;
    }
    assert r[k] == y;
  }

  /** The tickets are those of the claimers, one by one. */
  ghost predicate HasTickets(claims: seq<Claimer>, tickets: seq<Ticket>)
    reads claims
  {
    |tickets| == |claims| && forall i | 0 <= i < |claims| :: claims[i].ticket == tickets[i]
  }

  lemma EnqueuedTickets(claims: seq<Claimer>, tickets: seq<Ticket>, claimer: Claimer, urgent: bool)
    requires HasTickets(claims, tickets)
    ensures HasTickets(Enqueued(claims, claimer, urgent), Enqueued(tickets, claimer.ticket, urgent))
  {
  }

  lemma ErasedTickets(claims: seq<Claimer>, tickets: seq<Ticket>, k: nat)
    requires HasTickets(claims, tickets) && k < |claims|
    ensures HasTickets(Erased(claims, k), Erased(tickets, k))
  {
  }

  lemma FirstErasedTickets(claims: seq<Claimer>, tickets: seq<Ticket>)
    requires HasTickets(claims, tickets) && claims != []
    ensures HasTickets(claims[1..], tickets[1..])
  {
  }

  lemma SubstitutedQueue(claims: seq<Claimer>, tickets: seq<Ticket>, before: Claimer, after: Claimer)
    requires Distinct(claims) && HasTickets(claims, tickets) && after !in claims && after.ticket == before.ticket
    ensures Distinct(Substituted(claims, before, after)) && HasTickets(Substituted(claims, before, after), tickets)
    ensures forall c :: c in Substituted(claims, before, after) <==> (c in claims && c != before) || (c == after && before in claims)
  {
    if before in claims {
      ReplacedDistinct(claims, IndexOf(claims, before), after);
    }
  }

  /** Whether a ticket goes before another one that was not granted yet either. */
  predicate GoesBefore(a: Ticket, b: Ticket) {
    if a.urgent then !b.urgent || a.number > b.number else !b.urgent && a.number < b.number
  }

  /** The place of a claimer in the queue is told by its ticket. */
  lemma QueuedByTicket(resource: ClaimableResource, i: nat, j: nat)
    requires resource.Valid() && i < |resource.pendingClaims| && j < |resource.pendingClaims|
    ensures i < j <==> GoesBefore(resource.pendingClaims[i].ticket, resource.pendingClaims[j].ticket)
  {
    PlaceByTicket(resource.granted, resource.pending, resource.next, i, j);
  }

  lemma PlaceByTicket(granted: seq<Ticket>, pending: seq<Ticket>, next: nat, i: nat, j: nat)
    requires Orderly(granted, pending, next) && i < |pending| && j < |pending|
    ensures i < j <==> GoesBefore(pending[i], pending[j])
  {
    var all, g := granted + pending, |granted|;
    assert all[g + i] == pending[i] && all[g + j] == pending[j];
  }

  /** A claimer that has the resource claimed it before every claimer that waits for it, unless one of them is urgent. */
  lemma FirstComeFirstServed(resource: ClaimableResource, waiting: Claimer)
    requires resource.Valid() && resource.currentClaim != null && waiting in resource.pendingClaims
    requires !resource.currentClaim.grant.urgent && !waiting.ticket.urgent
    ensures resource.currentClaim.grant.number < waiting.ticket.number
  {
    var k :| 0 <= k < |resource.pendingClaims| && resource.pendingClaims[k] == waiting;
    assert resource.pending[k] == waiting.ticket;
    GrantedBeforePending(resource.granted, resource.pending, resource.next, resource.currentClaim.grant, waiting.ticket);
  }

  class ClaimableResource {
    var pendingClaims: seq<Claimer>
    var currentClaim: Claimer?
    var reEvaluateClaimScheduled: bool

    /** The claimers that exist, and the re-evaluations that wait in the event dispatcher. */
    ghost var claimers: set<Claimer>
    ghost var scheduled: nat
    ghost var granted: seq<Ticket>
    ghost var pending: seq<Ticket>
    ghost var next: nat

    ghost predicate Valid()
      reads this, claimers
    {
      && Distinct(pendingClaims)
      && (forall c <- pendingClaims :: c in claimers)
      && (currentClaim != null ==> currentClaim in claimers)
      && (forall c <- claimers :: c.Agrees(this))
      && scheduled == (if reEvaluateClaimScheduled then 1 else 0)
      && (currentClaim == null && pendingClaims != [] ==> reEvaluateClaimScheduled)
      && Orderly(granted, pending, next)
      && HasTickets(pendingClaims, pending)
      && (currentClaim != null ==> granted != [] && currentClaim.grant == granted[|granted| - 1])
    }

    constructor ()
      ensures Valid() && claimers == {} && currentClaim == null && pendingClaims == []
      ensures fresh(this)
    {
      pendingClaims := [];
      currentClaim := null;
      reEvaluateClaimScheduled := false;
      claimers := {};
      scheduled := 0;
      granted := [];
      pending := [];
      next := 0;
    }

    /** The dispatcher executes a re-evaluation: if the resource is free, the first pending claim is granted. */
    method ReEvaluateClaim()
      requires Valid() && scheduled > 0
      modifies this, if pendingClaims == [] then {} else {pendingClaims[0]}
      ensures Valid() && claimers == old(claimers) && next == old(next) && !reEvaluateClaimScheduled
      ensures old(currentClaim == null && pendingClaims != []) ==>
        && currentClaim == old(pendingClaims[0]) && currentClaim.isGranted && pendingClaims == old(pendingClaims)[1..]
        && granted == old(granted + [pending[0]]) && pending == old(pending)[1..]
        && currentClaim.grant == old(pendingClaims[0].ticket) && currentClaim.ticket == old(pendingClaims[0].ticket)
      ensures !old(currentClaim == null && pendingClaims != []) ==>
        && currentClaim == old(currentClaim) && pendingClaims == old(pendingClaims)
        && granted == old(granted) && pending == old(pending)
    {
      scheduled := scheduled - 1;
      reEvaluateClaimScheduled := false;
      if currentClaim == null && pendingClaims != [] {
        GrantedFirst(granted, pending, next);
        FirstErased(pendingClaims);
        FirstErasedTickets(pendingClaims, pending);
        currentClaim := pendingClaims[0];
        pendingClaims := pendingClaims[1..];
        granted := granted + [pending[0]];
        pending := pending[1..];
        currentClaim.ClaimGranted();
      }
    }

    method AddClaim(claimer: Claimer, urgent: bool)
      modifies this`pendingClaims, this`pending, this`next, this`reEvaluateClaimScheduled, this`scheduled
      ensures pendingClaims == Enqueued(old(pendingClaims), claimer, urgent)
      ensures pending == Enqueued(old(pending), Ticket(old(next), urgent), urgent)
      ensures next == old(next) + 1
      ensures reEvaluateClaimScheduled == (old(reEvaluateClaimScheduled) || currentClaim == null)
      ensures scheduled == old(scheduled) + if reEvaluateClaimScheduled && !old(reEvaluateClaimScheduled) then 1 else 0
    {
      pending := Enqueued(pending, Ticket(next, urgent), urgent);
      next := next + 1;
      pendingClaims := Enqueued(pendingClaims, claimer, urgent);
      if currentClaim == null {
        ScheduleReEvaluateClaim();
      }
    }

    method RemoveClaim(claimer: Claimer)
      requires |pending| == |pendingClaims|
      requires claimer == currentClaim || claimer in pendingClaims
      modifies this`pendingClaims, this`pending, this`currentClaim, this`reEvaluateClaimScheduled, this`scheduled
      ensures old(currentClaim) == claimer ==>
        && currentClaim == null && pendingClaims == old(pendingClaims) && pending == old(pending) && reEvaluateClaimScheduled
      ensures old(currentClaim) != claimer ==>
        && pendingClaims == Erased(old(pendingClaims), IndexOf(old(pendingClaims), claimer))
        && pending == Erased(old(pending), IndexOf(old(pendingClaims), claimer))
        && currentClaim == old(currentClaim) && reEvaluateClaimScheduled == old(reEvaluateClaimScheduled)
      ensures scheduled == old(scheduled) + if reEvaluateClaimScheduled && !old(reEvaluateClaimScheduled) then 1 else 0
    {
      if currentClaim == claimer {
        currentClaim := null;
        ScheduleReEvaluateClaim();
      } else if pendingClaims != [] {
        var k := IndexOf(pendingClaims, claimer);
        pendingClaims := Erased(pendingClaims, k);
        pending := Erased(pending, k);
      }
    }

    method ReplaceClaim(claimerOld: Claimer, claimerNew: Claimer)
      modifies this`currentClaim, this`pendingClaims
      ensures currentClaim == if old(currentClaim) == claimerOld then claimerNew else old(currentClaim)
      ensures pendingClaims == Substituted(old(pendingClaims), claimerOld, claimerNew)
    {
      if currentClaim == claimerOld {
        currentClaim := claimerNew;
      }
      var index := 0;
      while index != |pendingClaims|
        invariant 0 <= index <= |pendingClaims| && pendingClaims == old(pendingClaims)
        invariant claimerOld !in pendingClaims[..index]
        invariant currentClaim == if old(currentClaim) == claimerOld then claimerNew else old(currentClaim)
        decreases |pendingClaims| - index
      {
        if pendingClaims[index] == claimerOld {
          FirstIndex(pendingClaims, claimerOld, index);
          pendingClaims := pendingClaims[index := claimerNew];
          return;
        }
        index := index + 1;
      }
    }

    method ScheduleReEvaluateClaim()
      modifies this`reEvaluateClaimScheduled, this`scheduled
      ensures reEvaluateClaimScheduled
      ensures scheduled == old(scheduled) + if old(reEvaluateClaimScheduled) then 0 else 1
    {
      if !reEvaluateClaimScheduled {
        reEvaluateClaimScheduled := true;
        scheduled := scheduled + 1;
      }
    }
  }

  lemma {:induction false} FirstIndex<T>(s: seq<T>, x: T, k: nat)
    requires k < |s| && s[k] == x && x !in s[..k]
    ensures IndexOf(s, x) == k
  {
    if k > 0 {
      assert s[..k][0] == s[0];
      assert s[1..][..k - 1] == s[..k][1..];
      FirstIndex(s[1..], x, k - 1);
    }
  }

  class Claimer {
    const resource: ClaimableResource
    var isGranted: bool
    var isQueued: bool
    /** Whether the claimer holds a callback. */
    var onGranted: bool
    /** The ticket of the latest claim, and that of the claim that was granted latest. */
    ghost var ticket: Ticket
    ghost var grant: Ticket

    /** The flags of a claimer say exactly what the resource does with it. */
    ghost predicate Agrees(resource: ClaimableResource)
      reads this, resource
    {
      && this.resource == resource
      && (isGranted <==> resource.currentClaim == this)
      && (isQueued <==> this in resource.pendingClaims)
      && (onGranted <==> isQueued)
    }

    constructor (resource: ClaimableResource)
      requires resource.Valid()
      modifies resource`claimers
      ensures resource.Valid() && resource.claimers == old(resource.claimers) + {this} && fresh(this)
      ensures this.resource == resource && !isGranted && !isQueued
    {
      this.resource := resource;
      isGranted := false;
      isQueued := false;
      onGranted := false;
      ticket := Ticket(0, false);
      grant := Ticket(0, false);
      new;
      resource.claimers := resource.claimers + {this};
    }

    /** A move takes over what the other claimer was granted and what it waits for, in its place in the queue. */
    constructor Move(other: Claimer)
      requires other.resource.Valid() && other in other.resource.claimers
      modifies other, other.resource`claimers, other.resource`currentClaim, other.resource`pendingClaims
      ensures resource == other.resource && fresh(this)
      ensures resource.Valid() && resource.claimers == old(other.resource.claimers) + {this}
      ensures isGranted == old(other.isGranted) && isQueued == old(other.isQueued) && !other.isGranted && !other.isQueued
      ensures ticket == old(other.ticket) && grant == old(other.grant)
      ensures resource.currentClaim == if old(other.resource.currentClaim) == other then this else old(other.resource.currentClaim)
      ensures |resource.pendingClaims| == |old(other.resource.pendingClaims)|
      ensures forall i | 0 <= i < |resource.pendingClaims| ::
        resource.pendingClaims[i] == if old(other.resource.pendingClaims[i]) == other then this else old(other.resource.pendingClaims[i])
    {
      this.resource := other.resource;
      isGranted := false;
      isQueued := false;
      onGranted := false;
      ticket := Ticket(0, false);
      grant := Ticket(0, false);
      new;
      resource.claimers := resource.claimers + {this};
      SubstitutedAt(resource.pendingClaims, other, this);
      TakeOver(other);
    }

    method TakeOver(other: Claimer)
      requires resource.Valid() && other != this && other in resource.claimers && this in resource.claimers
      requires !isGranted && !isQueued
      modifies this, other, resource`currentClaim, resource`pendingClaims
      ensures resource.Valid()
      ensures isGranted == old(other.isGranted) && isQueued == old(other.isQueued) && !other.isGranted && !other.isQueued
      ensures ticket == old(other.ticket) && grant == old(other.grant)
      ensures resource.currentClaim == if old(resource.currentClaim) == other then this else old(resource.currentClaim)
      ensures resource.pendingClaims == Substituted(old(resource.pendingClaims), other, this)
    {
      ticket := other.ticket;
      grant := other.grant;
      SubstitutedQueue(resource.pendingClaims, resource.pending, other, this);
      isGranted := other.isGranted;
      isQueued := other.isQueued;
      other.isGranted := false;
      other.isQueued := false;
      if isQueued || isGranted {
        resource.ReplaceClaim(other, this);
      }
      onGranted := other.onGranted;
      other.onGranted := false;
      assert resource.pendingClaims == Substituted(old(resource.pendingClaims), other, this);
      assert Agrees(resource) && other.Agrees(resource);
    }

    /** Move assignment first gives up what this claimer had. */
    method MoveFrom(other: Claimer)
      requires resource.Valid() && other != this && other in resource.claimers && this in resource.claimers
      modifies this, other, resource
      ensures resource.Valid() && resource.claimers == old(resource.claimers)
      ensures isGranted == old(other.isGranted) && isQueued == old(other.isQueued) && !other.isGranted && !other.isQueued
      ensures ticket == old(other.ticket) && grant == old(other.grant)
      ensures resource.currentClaim == if old(resource.currentClaim) == other then this
                                       else if old(resource.currentClaim) == this then null
                                       else old(resource.currentClaim)
      ensures
        var others := Without(old(resource.pendingClaims), this);
        && |resource.pendingClaims| == |others|
        && forall i | 0 <= i < |others| :: resource.pendingClaims[i] == if others[i] == other then this else others[i]
    {
      ReleaseAllClaims();
      SubstitutedAt(resource.pendingClaims, other, this);
      TakeOver(other);
    }

    /** The end of a claimer: nothing refers to it any longer. */
    method Destroy()
      requires resource.Valid() && this in resource.claimers
      modifies this, resource
      ensures resource.Valid() && resource.claimers == old(resource.claimers) - {this}
      ensures this !in resource.pendingClaims && resource.currentClaim != this
    {
      ReleaseAllClaims();
      resource.claimers := resource.claimers - {this};
    }

    method ReleaseAllClaims()
      requires resource.Valid() && this in resource.claimers
      modifies this, resource
      ensures resource.Valid() && resource.claimers == old(resource.claimers)
      ensures !isGranted && !isQueued && unchanged(resource`granted) && unchanged(resource`next)
      ensures resource.currentClaim == if old(resource.currentClaim) == this then null else old(resource.currentClaim)
      ensures resource.pendingClaims == Without(old(resource.pendingClaims), this)
    {
      if isGranted {
        Release();
      }
      if isQueued {
        Release();
      }
    }

    /** A claimer has at most one claim pending; it may have one while it is granted another. */
    method Claim(urgent: bool)
      requires resource.Valid() && this in resource.claimers && !onGranted
      modifies this, resource`pendingClaims, resource`pending, resource`next, resource`reEvaluateClaimScheduled, resource`scheduled
      ensures resource.Valid() && isQueued && isGranted == old(isGranted)
      ensures ticket == Ticket(old(resource.next), urgent) && grant == old(grant) && resource.next == old(resource.next) + 1
      ensures resource.pendingClaims == Enqueued(old(resource.pendingClaims), this, urgent)
      ensures resource.pending == Enqueued(old(resource.pending), Ticket(old(resource.next), urgent), urgent)
    {
      Queued(resource.granted, resource.pending, resource.next, urgent);
      EnqueuedDistinct(resource.pendingClaims, this, urgent);
      ghost var claims, tickets := resource.pendingClaims, resource.pending;
      ticket := Ticket(resource.next, urgent);
      onGranted := true;
      isQueued := true;
      resource.AddClaim(this, urgent);
      EnqueuedTickets(claims, tickets, this, urgent);
      assert Agrees(resource);
    }

    /** Gives up what was granted, or else withdraws what is pending. */
    method Release()
      requires resource.Valid() && this in resource.claimers && (isGranted || isQueued)
      modifies this, resource
      ensures resource.Valid() && resource.claimers == old(resource.claimers) && !isGranted
      ensures unchanged(resource`granted) && unchanged(resource`next)
      ensures old(isGranted) ==>
        && isQueued == old(isQueued) && resource.currentClaim == null
        && resource.pendingClaims == old(resource.pendingClaims) && resource.pending == old(resource.pending)
      ensures !old(isGranted) ==>
        && !isQueued && resource.currentClaim == old(resource.currentClaim)
        && resource.pendingClaims == Erased(old(resource.pendingClaims), IndexOf(old(resource.pendingClaims), this))
        && resource.pending == Erased(old(resource.pending), IndexOf(old(resource.pendingClaims), this))
    {
      if !isGranted {
        var k := IndexOf(resource.pendingClaims, this);
        Withdrawn(resource.granted, resource.pending, resource.next, k);
        ErasedDistinct(resource.pendingClaims, k);
        ErasedTickets(resource.pendingClaims, resource.pending, k);
        onGranted := false;
        isQueued := false;
      }
      isGranted := false;
      resource.RemoveClaim(this);
    }

    /** The callback itself is not part of this: what it does comes after this. */
    method ClaimGranted()
      modifies this
      ensures !isQueued && isGranted && !onGranted && grant == ticket && ticket == old(ticket)
    {
      grant := ticket;
      isQueued := false;
      isGranted := true;
      onGranted := false;
    }
  }
}
