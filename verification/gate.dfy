/**
 The `/search` endpoint: `check_key`, the validation of `id`, and the hand-over
 to `search_user`.
 */
module Gate {
  import opened Optional
  import opened Text
  import opened Exchange

  /** The decision taken before any exchange is attempted. */
  datatype Verdict = Forbidden | BadRequest | Proceed(query: string)

  /** What `/search` answers: a client error with its status, or the outcome of
      the exchange as a 200 response. */
  datatype Response = Refused(status: nat) | Answered(outcome: Outcome)

  /** `check_key`: the `key` parameter is present, non-empty and equal to the
      configured key, which itself may be missing. */
  predicate KeyAccepted(key: Option<string>, configured: Option<string>) {
    key.Some? && key.value != "" && configured == key
  }

  /** The `id` parameter is present and `isdigit()`: non-empty, digits only. */
  predicate IdAccepted(id: Option<string>) {
    id.Some? && id.value != "" && IsDecimal(id.value)
  }

  /** The checks of `search`, in the program's order: the key, then the id. */
  function Check(key: Option<string>, id: Option<string>, configured: Option<string>): (v: Verdict)
    ensures v == Forbidden <==> !KeyAccepted(key, configured)
    ensures v == BadRequest <==> KeyAccepted(key, configured) && !IdAccepted(id)
    ensures v.Proceed? ==> id == Some(v.query) && |v.query| > 0 && AllDigits(v.query)
    ensures v.Proceed? ==> key.Some? && configured == key
  {
    if !KeyAccepted(key, configured) then Forbidden
    else if !IdAccepted(id) then BadRequest
    else Proceed(id.value)
  }

  /** `search`: 403 on a bad key, 400 on a bad id, otherwise the exchange. */
  function Search(key: Option<string>, id: Option<string>, configured: Option<string>,
                  sendFailure: Option<string>, polls: seq<Fetch>): (r: Response)
    ensures r == Refused(403) <==> !KeyAccepted(key, configured)
    ensures r == Refused(400) <==> KeyAccepted(key, configured) && !IdAccepted(id)
    ensures r.Answered? <==> KeyAccepted(key, configured) && IdAccepted(id)
  {
    match Check(key, id, configured)
    case Forbidden => Refused(403)
    case BadRequest => Refused(400)
    case Proceed(query) => Answered(SearchUser(query, sendFailure, polls))
  }

  /** The key is checked before the id: a rejected key gives 403 whatever the id is. */
  lemma KeyCheckedFirst(key: Option<string>, id1: Option<string>, id2: Option<string>,
                        configured: Option<string>)
    requires !KeyAccepted(key, configured)
    ensures Check(key, id1, configured) == Check(key, id2, configured) == Forbidden
  {
  }

  /** Without a configured key, or with an empty one, every request is refused. */
  lemma UnsetKeyRefusesAll(key: Option<string>, id: Option<string>, configured: Option<string>)
    requires configured == None || configured == Some("")
    ensures Check(key, id, configured) == Forbidden
  {
  }

  /** An answered request ran the exchange on exactly the `id` it was given. */
  lemma AnsweredUsesId(key: Option<string>, id: Option<string>, configured: Option<string>,
                       sendFailure: Option<string>, polls: seq<Fetch>)
    requires Search(key, id, configured, sendFailure, polls).Answered?
    ensures id.Some?
    ensures Search(key, id, configured, sendFailure, polls).outcome == SearchUser(id.value, sendFailure, polls)
  {
  }
}
