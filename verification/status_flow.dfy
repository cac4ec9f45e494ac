/** The kitchen view's order status: four statuses, one advance button per status, and the
    label and colour tables. */
module StatusFlow {
  import opened Common

  datatype Status = Pending | Preparing | Ready | Delivered

  /** Every value of the status domain, in lifecycle order. */
  const Lifecycle: seq<Status> := [Pending, Preparing, Ready, Delivered]

  /** The string the API carries. */
  function Wire(s: Status): string {
    match s
    case Pending => "pending"
    case Preparing => "preparing"
    case Ready => "ready"
    case Delivered => "delivered"
  }

  function ParseStatus(w: string): (r: Option<Status>)
    ensures r.Some? ==> Wire(r.value) == w
  {
    match w
    case "pending" => Some(Pending)
    case "preparing" => Some(Preparing)
    case "ready" => Some(Ready)
    case "delivered" => Some(Delivered)
    case _ => None
  }

  /** Position in the lifecycle. */
  function Rank(s: Status): nat {
    match s
    case Pending => 0
    case Preparing => 1
    case Ready => 2
    case Delivered => 3
  }

  /** The buttons shown for an order: `order.status === 'pending'` offers 'preparing', and so on;
      any other string offers nothing. */
  function Offered(w: string): Option<Status> {
    if w == "pending" then Some(Preparing)
    else if w == "preparing" then Some(Ready)
    else if w == "ready" then Some(Delivered)
    else None
  }

  /** The next-status function the buttons implement. */
  function Next(s: Status): (r: Option<Status>)
    ensures r.Some? ==> Rank(r.value) == Rank(s) + 1
    ensures r.None? <==> s == Delivered
  {
    match s
    case Pending => Some(Preparing)
    case Preparing => Some(Ready)
    case Ready => Some(Delivered)
    case Delivered => None
  }

  /** `statusLabels` */
  function Label(s: Status): string {
    match s
    case Pending => "Pendente"
    case Preparing => "Preparando"
    case Ready => "Pronto"
    case Delivered => "Entregue"
  }

  datatype Colors = Colors(bg: string, text: string)

  /** `statusColors` */
  function Color(s: Status): Colors {
    match s
    case Pending => Colors("bg-yellow-100", "text-yellow-800")
    case Preparing => Colors("bg-blue-100", "text-blue-800")
    case Ready => Colors("bg-green-100", "text-green-800")
    case Delivered => Colors("bg-gray-100", "text-gray-800")
  }

  /** The statuses visited by pressing the offered button until none is left. */
  function Path(s: Status): (r: seq<Status>)
    ensures |r| == 4 - Rank(s)
    ensures |r| > 0 && r[0] == s && r[|r| - 1] == Delivered
    decreases 3 - Rank(s)
  {
    match Next(s)
    case None => [s]
    case Some(t) => [s] + Path(t)
  }

  // ---------------------------------------------------------------------------------------

  /** The status domain has exactly four values, none of them 'cancelled'. */
  lemma DomainIsLifecycle(s: Status)
    ensures s in Lifecycle
    ensures Distinct(Lifecycle) && |Lifecycle| == 4
    ensures forall k :: 0 <= k < |Lifecycle| ==> Rank(Lifecycle[k]) == k
    ensures ParseStatus("cancelled") == None
  {
  }

  /** The API string and the status determine each other. */
  lemma WireRoundTrip(s: Status, w: string)
    ensures ParseStatus(Wire(s)) == Some(s)
    ensures ParseStatus(w) == Some(s) <==> Wire(s) == w
  {
  }

  /** The buttons shown for a status string are exactly the next-status function on the
      statuses, and nothing for a string outside the domain. */
  lemma OfferedIsNext(w: string)
    ensures Offered(w) == match ParseStatus(w) case Some(s) => Next(s) case None => None
  {
  }

  /** Pending offers only preparing, preparing only ready, ready only delivered, and delivered
      nothing. */
  lemma OfferedTransitions()
    ensures Offered("pending") == Some(Preparing)
    ensures Offered("preparing") == Some(Ready)
    ensures Offered("ready") == Some(Delivered)
    ensures Offered("delivered") == None
  {
  }

  /** Both tables give every status its own entry. */
  lemma TablesAreTotalAndInjective(s: Status, t: Status)
    ensures |Label(s)| > 0 && |Color(s).bg| > 0 && |Color(s).text| > 0
    ensures Label(s) == Label(t) ==> s == t
    ensures Color(s) == Color(t) ==> s == t
  {
  }

  /** Ranks strictly increase along a path, so no status is visited twice. */
  lemma {:induction false} PathIncreases(s: Status)
    ensures forall i, j :: 0 <= i < j < |Path(s)| ==> Rank(Path(s)[i]) < Rank(Path(s)[j])
    ensures Distinct(Path(s))
    decreases 3 - Rank(s)
  {
    match Next(s)
    case None =>
    case Some(t) =>
      PathIncreases(t);
      var p := Path(s);
      assert p == [s] + Path(t);
      forall j | 0 < j < |p| ensures Rank(s) < Rank(p[j]) {
        assert p[j] == Path(t)[j - 1];
      }
  }

  /** From pending, the offered buttons reach delivered in exactly three steps, visiting every
      status once. */
  lemma PendingReachesDelivered()
    ensures Path(Pending) == Lifecycle
    ensures |Path(Pending)| - 1 == 3
    ensures Distinct(Path(Pending))
  {
    PathIncreases(Pending);
  }
}
