/**
 The decision rule of `search_user`: after the two sends, read snapshots of the
 bot's latest messages until one carries the lookup banner, parse it, and accept
 it only when it yields a phone number different from the query.

 The clock is replaced by the finite list of snapshots taken before the time
 budget ran out, and the transport by what it delivered: either a send error,
 or per poll the texts it fetched or the error it raised.
 */
module Exchange {
  import opened Optional
  import opened Text
  import opened Parser

  /** The banner every lookup-result message of the bot carries. */
  const Marker := "User Information Lookup"

  /** One `get_messages` call: the texts it returned, newest first (a message
      without text is `None`), or the error it raised. */
  datatype Fetch = Fetched(texts: seq<Option<string>>) | FetchFailed(reason: string)

  /** The dictionary `search_user` returns, by its `status` and `message`. */
  datatype Outcome =
    | Success(record: Record, queryId: string)   // status "success"
    | Mismatch(parsed: Record)                   // "Parsing issue. …", with parsed_data
    | NoData                                     // "no data found this number"
    | TransportFailure(message: string)          // str(e) of a transport exception

  /** A message whose text is present, non-empty and contains the banner. */
  predicate Qualifies(text: Option<string>) {
    text.Some? && text.value != "" && Contains(text.value, Marker)
  }

  /** A poll that yields nothing: it was fetched and none of its messages qualifies. */
  ghost predicate Quiet(f: Fetch) {
    f.Fetched? && forall x :: 0 <= x < |f.texts| ==> !Qualifies(f.texts[x])
  }

  /** Message `j` of poll `p` is the one that decides: every earlier poll was
      quiet, and it is the first qualifying message of its own poll. */
  ghost predicate Decisive(polls: seq<Fetch>, p: nat, j: nat) {
    && p < |polls| && polls[p].Fetched?
    && j < |polls[p].texts| && Qualifies(polls[p].texts[j])
    && (forall x :: 0 <= x < j ==> !Qualifies(polls[p].texts[x]))
    && (forall q :: 0 <= q < p ==> Quiet(polls[q]))
  }

  /** What the exchange promises before it may report success: a phone number,
      and not an echo of the query. */
  ghost predicate Accepts(query: string, parsed: Record) {
    parsed.phoneNumber.Some? && parsed.phoneNumber.value != query
  }

  /** The index of the first qualifying text at or after `from`. */
  function FirstQualifying(texts: seq<Option<string>>, from: nat): (r: Option<nat>)
    requires from <= |texts|
    ensures r.Some? ==> from <= r.value < |texts| && Qualifies(texts[r.value])
    ensures r.Some? ==> forall x :: from <= x < r.value ==> !Qualifies(texts[x])
    ensures r.None? ==> forall x :: from <= x < |texts| ==> !Qualifies(texts[x])
    decreases |texts| - from
  {
    if from == |texts| then None
    else if Qualifies(texts[from]) then Some(from)
    else FirstQualifying(texts, from + 1)
  }

  /** The verdict on a qualifying message. */
  function Decide(query: string, text: string): (r: Outcome)
    ensures r.Success? <==> Accepts(query, Parse(Some(text)))
    ensures r.Success? ==> r == Success(Parse(Some(text)), query)
    ensures !r.Success? ==> r == Mismatch(Parse(Some(text)))
  {
    var parsed := Parse(Some(text));
    if parsed.phoneNumber.Some? && parsed.phoneNumber.value != "" && parsed.phoneNumber.value != query
    then Success(parsed, query)
    else Mismatch(parsed)
  }

  /** The poll loop over the remaining snapshots. */
  function Poll(query: string, polls: seq<Fetch>): (r: Outcome)
    ensures r.Success? ==> r.queryId == query && Accepts(query, r.record)
    ensures r == NoData <==> forall q :: 0 <= q < |polls| ==> Quiet(polls[q])
    decreases |polls|
  {
    if |polls| == 0 then NoData
    else
      match polls[0]
      case FetchFailed(e) => TransportFailure(e)
      case Fetched(texts) =>
        match FirstQualifying(texts, 0)
        case Some(j) => Decide(query, texts[j].value)
        case None =>
          var r := Poll(query, polls[1..]);
          assert forall q :: 1 <= q < |polls| ==> polls[q] == polls[1..][q - 1];
          r
  }

  /** `search_user`: a failing send ends the exchange before any poll. */
  function SearchUser(query: string, sendFailure: Option<string>, polls: seq<Fetch>): (r: Outcome)
    ensures sendFailure.Some? ==> r == TransportFailure(sendFailure.value)
    ensures r.Success? ==> r.queryId == query && Accepts(query, r.record)
  {
    match sendFailure
    case Some(e) => TransportFailure(e)
    case None => Poll(query, polls)
  }

  /** The decisive message alone fixes the outcome, whether it is a success or a
      mismatch: the loop stops there. */
  lemma {:induction false} DecisiveMessageDecides(query: string, polls: seq<Fetch>, p: nat, j: nat)
    requires Decisive(polls, p, j)
    ensures Poll(query, polls) == Decide(query, polls[p].texts[j].value)
    decreases p
  {
    if p == 0 {
      assert FirstQualifying(polls[0].texts, 0) == Some(j);
    } else {
      assert FirstQualifying(polls[0].texts, 0).None?;
      assert Decisive(polls[1..], p - 1, j) by {
        assert polls[1..][p - 1] == polls[p];
        assert forall q :: 0 <= q < p - 1 ==> polls[1..][q] == polls[q + 1];
      }
      DecisiveMessageDecides(query, polls[1..], p - 1, j);
    }
  }

  /** The outcome is a success exactly when the decisive message parses to a
      phone number other than the query; a success carries that record unchanged
      and the query as its id. */
  lemma SuccessExactly(query: string, polls: seq<Fetch>, p: nat, j: nat)
    requires Decisive(polls, p, j)
    ensures var parsed := Parse(polls[p].texts[j]);
      && (Poll(query, polls).Success? <==> Accepts(query, parsed))
      && (Accepts(query, parsed) ==> Poll(query, polls) == Success(parsed, query))
      && (!Accepts(query, parsed) ==> Poll(query, polls) == Mismatch(parsed))
  {
    DecisiveMessageDecides(query, polls, p, j);
  }

  /** Nothing after the decisive message is ever inspected: neither the rest of
      its snapshot nor any later snapshot. */
  lemma LaterMessagesIgnored(query: string, polls: seq<Fetch>, p: nat, j: nat,
                             rest: seq<Option<string>>, later: seq<Fetch>)
    requires Decisive(polls, p, j)
    ensures Poll(query, polls[..p] + [Fetched(polls[p].texts[..j + 1] + rest)] + later)
         == Poll(query, polls)
  {
    var polls' := polls[..p] + [Fetched(polls[p].texts[..j + 1] + rest)] + later;
    assert polls'[p].texts[j] == polls[p].texts[j];
    assert forall x :: 0 <= x <= j ==> polls'[p].texts[x] == polls[p].texts[x];
    assert forall q :: 0 <= q < p ==> polls'[q] == polls[q];
    assert Decisive(polls', p, j);
    DecisiveMessageDecides(query, polls', p, j);
    DecisiveMessageDecides(query, polls, p, j);
  }

  /** A fetch error ends the exchange exactly when every poll before it was quiet. */
  lemma {:induction false} FetchFailureEnds(query: string, polls: seq<Fetch>, p: nat)
    requires p < |polls| && polls[p].FetchFailed?
    requires forall q :: 0 <= q < p ==> Quiet(polls[q])
    ensures Poll(query, polls) == TransportFailure(polls[p].reason)
    decreases p
  {
    if p > 0 {
      assert FirstQualifying(polls[0].texts, 0).None?;
      assert forall q :: 0 <= q < p - 1 ==> polls[1..][q] == polls[q + 1];
      FetchFailureEnds(query, polls[1..], p - 1);
    }
  }

  /** The loop of `search_user` as the program runs it: poll by poll, message by
      message, returning from inside both loops. */
  method RunSearchUser(query: string, sendFailure: Option<string>, polls: seq<Fetch>) returns (r: Outcome)
    ensures r == SearchUser(query, sendFailure, polls)
  {
    if sendFailure.Some? {
      return TransportFailure(sendFailure.value);
    }
    var i := 0;
    while i < |polls|
      invariant 0 <= i <= |polls|
      invariant forall q :: 0 <= q < i ==> Quiet(polls[q])
    {
      match polls[i]
      case FetchFailed(e) =>
        FetchFailureEnds(query, polls, i);
        return TransportFailure(e);
      case Fetched(texts) =>
        var j := 0;
        while j < |texts|
          invariant 0 <= j <= |texts|
          invariant forall x :: 0 <= x < j ==> !Qualifies(texts[x])
        {
          if Qualifies(texts[j]) {
            DecisiveMessageDecides(query, polls, i, j);
            return Decide(query, texts[j].value);
          }
          j := j + 1;
        }
      i := i + 1;
    }
    return NoData;
  }
}
