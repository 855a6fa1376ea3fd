/** The snippet access evaluator: which of Read, Write and Manage an accessor
    holds on a snippet, derived once from three raw grants, plus the
    any/all queries and the projection into the access-control record. */
module SnippetAccessPermission {

  /** A `Guid` as its 128-bit value; `Guid.Empty` is zero. */
  type Guid = n: nat | n < 0x1_0000_0000_0000_0000_0000_0000_0000_0000

  const EmptyGuid: Guid := 0

  /** The capabilities a caller can ask about. */
  datatype SnippetAccess = Read | Write | Manage

  /** Position in the hierarchy: a capability implies every lower one. */
  function Rank(a: SnippetAccess): nat {
    match a
    case Read => 0
    case Write => 1
    case Manage => 2
  }

  /** The evaluator as constructed: the raw grants are kept as given, the
      capabilities are derived from them on demand. */
  datatype Evaluator = Evaluator(
    snippetId: Guid,
    accessorId: Guid,
    rawRead: bool,
    rawWrite: bool,
    rawManage: bool,
    snippetPublic: bool)

  /** The record handed to API responses (`SnippetAccessControlDto`). */
  datatype AccessControl = AccessControl(userId: Guid, read: bool, write: bool, manage: bool)

  /** The raw grant for one capability. */
  function Granted(p: Evaluator, a: SnippetAccess): bool {
    match a
    case Read => p.rawRead
    case Write => p.rawWrite
    case Manage => p.rawManage
  }

  /** The derived capability: Manage implies Write, Write implies Read. */
  function Holds(p: Evaluator, a: SnippetAccess): (held: bool)
    ensures Granted(p, a) ==> held
  {
    match a
    case Read => p.rawRead || p.rawWrite || p.rawManage
    case Write => p.rawWrite || p.rawManage
    case Manage => p.rawManage
  }

  /** A capability is held exactly when some capability at or above it was
      granted. */
  lemma HoldsIffGrantedAtOrAbove(p: Evaluator, a: SnippetAccess)
    ensures Holds(p, a) <==> exists b :: Rank(a) <= Rank(b) && Granted(p, b)
  {
    if Holds(p, a) {
      if p.rawManage {
        assert Rank(a) <= Rank(Manage) && Granted(p, Manage);
      } else if p.rawWrite {
        assert Rank(a) <= Rank(Write) && Granted(p, Write);
      } else {
        assert Rank(a) <= Rank(Read) && Granted(p, Read);
      }
    }
  }

  /** The derived capabilities are downward closed in the hierarchy, for every
      combination of raw grants. */
  lemma HoldsIsMonotone(p: Evaluator, a: SnippetAccess, b: SnippetAccess)
    requires Rank(a) <= Rank(b)
    requires Holds(p, b)
    ensures Holds(p, a)
  {
  }

  /** `NoPermission(snippetId, accessorId)`. */
  function NoPermission(snippetId: Guid, accessorId: Guid): (p: Evaluator)
    ensures p.snippetId == snippetId && p.accessorId == accessorId
    ensures forall a :: !Holds(p, a)
    ensures IsPublicSnippet(p)
  {
    Evaluator(snippetId, accessorId, false, false, false, true)
  }

  /** `Error`: like `NoPermission`, with both identifiers empty. */
  function Error(): (p: Evaluator)
    ensures p.snippetId == EmptyGuid && p.accessorId == EmptyGuid
    ensures forall a :: !Holds(p, a)
    ensures IsPublicSnippet(p)
  {
    Evaluator(EmptyGuid, EmptyGuid, false, false, false, true)
  }

  /** The two sentinels agree on every capability and on visibility; only
      the identifiers tell a failed lookup from a denial. As values they
      coincide exactly when both identifiers are empty (the C# class itself
      is compared by reference, and every read of `Error` is a new object). */
  lemma SentinelsDifferOnlyByIdentifiers(snippetId: Guid, accessorId: Guid)
    ensures forall a :: Holds(NoPermission(snippetId, accessorId), a) == Holds(Error(), a)
    ensures NoPermission(snippetId, accessorId) == Error()
        <==> snippetId == EmptyGuid && accessorId == EmptyGuid
  {
  }

  function IsPublicSnippet(p: Evaluator): bool {
    p.snippetPublic
  }

  function IsPrivateSnippet(p: Evaluator): (r: bool)
    ensures r != IsPublicSnippet(p)
  {
    !p.snippetPublic
  }

  /** `Any(accesses)`: walks the requested capabilities in order and answers
      true at the first one that is held. */
  function Any(p: Evaluator, accesses: seq<SnippetAccess>): (r: bool)
    ensures r <==> exists i :: 0 <= i < |accesses| && Holds(p, accesses[i])
  {
    if |accesses| == 0 then false
    else if Holds(p, accesses[0]) then true
    else
      var rest := Any(p, accesses[1..]);
      assert forall i :: 1 <= i < |accesses| ==> accesses[i] == accesses[1..][i - 1];
      rest
  }

  /** `All(accesses)`: walks the requested capabilities in order and answers
      false at the first one that is not held. */
  function All(p: Evaluator, accesses: seq<SnippetAccess>): (r: bool)
    ensures r <==> forall i :: 0 <= i < |accesses| ==> Holds(p, accesses[i])
  {
    if |accesses| == 0 then true
    else if !Holds(p, accesses[0]) then false
    else
      var rest := All(p, accesses[1..]);
      assert forall i :: 1 <= i < |accesses| ==> accesses[i] == accesses[1..][i - 1];
      rest
  }

  /** The queries with no arguments ask about every capability. */
  const Everything: seq<SnippetAccess> := [Read, Write, Manage]

  /** `Any()` is true exactly when some raw grant was given, and `All()` is
      true exactly when Manage was granted. */
  lemma NoArgumentQueries(p: Evaluator)
    ensures Any(p, Everything) <==> p.rawRead || p.rawWrite || p.rawManage
    ensures All(p, Everything) <==> p.rawManage
  {
    assert Everything[0] == Read && Everything[1] == Write && Everything[2] == Manage;
  }

  /** The capabilities a request names, forgetting order and repetition. */
  function Requested(accesses: seq<SnippetAccess>): set<SnippetAccess> {
    set a | a in accesses
  }

  /** Neither query depends on the order or the repetition of its arguments:
      only the set of requested capabilities matters. */
  lemma QueriesDependOnlyOnRequestedSet(p: Evaluator, xs: seq<SnippetAccess>, ys: seq<SnippetAccess>)
    requires Requested(xs) == Requested(ys)
    ensures Any(p, xs) == Any(p, ys)
    ensures All(p, xs) == All(p, ys)
  {
    SameRequestSameAnswers(p, xs, ys);
    SameRequestSameAnswers(p, ys, xs);
  }

  /** One direction of `QueriesDependOnlyOnRequestedSet`. */
  lemma SameRequestSameAnswers(p: Evaluator, xs: seq<SnippetAccess>, ys: seq<SnippetAccess>)
    requires Requested(xs) == Requested(ys)
    ensures Any(p, xs) ==> Any(p, ys)
    ensures All(p, ys) ==> All(p, xs)
  {
    forall i | 0 <= i < |xs|
      ensures exists j :: 0 <= j < |ys| && ys[j] == xs[i]
    {
      assert xs[i] in Requested(xs);
      assert xs[i] in ys;
    }
  }

  /** The empty request: `Any` of nothing is false, `All` of nothing is true,
      and on a non-empty request `All` implies `Any`. */
  lemma EmptyAndNonEmptyRequests(p: Evaluator, xs: seq<SnippetAccess>)
    ensures !Any(p, [])
    ensures All(p, [])
    ensures |xs| > 0 && All(p, xs) ==> Any(p, xs)
  {
    if |xs| > 0 && All(p, xs) {
      assert Holds(p, xs[0]);
    }
  }

  /** `ToControlModel()`: the accessor and the RAW grants, not the derived
      capabilities. */
  function ToControlModel(p: Evaluator): (c: AccessControl)
    ensures c.userId == p.accessorId
    ensures forall a :: ControlGrants(c, a) == Granted(p, a)
  {
    AccessControl(p.accessorId, p.rawRead, p.rawWrite, p.rawManage)
  }

  /** The grant the control record shows for one capability. */
  function ControlGrants(c: AccessControl, a: SnippetAccess): bool {
    match a
    case Read => c.read
    case Write => c.write
    case Manage => c.manage
  }

  /** Rebuilding an evaluator from its control record (with the same snippet
      and visibility) gives back the very same evaluator, so the record loses
      nothing the capabilities depend on. */
  lemma ControlModelRoundTrip(p: Evaluator)
    ensures var c := ToControlModel(p);
            Evaluator(p.snippetId, c.userId, c.read, c.write, c.manage, p.snippetPublic) == p
  {
  }

  /** A write-only grant: Read is held, yet the control record shows
      `Read = false`. */
  lemma ControlModelShowsRawGrants(s: Guid, u: Guid)
    ensures var p := Evaluator(s, u, false, true, false, false);
            && Holds(p, Read) && Holds(p, Write) && !Holds(p, Manage)
            && All(p, [Read, Write]) && !All(p, [Read, Write, Manage])
            && !ToControlModel(p).read
  {
    var p := Evaluator(s, u, false, true, false, false);
    assert !Holds(p, [Read, Write, Manage][2]);
  }
}
