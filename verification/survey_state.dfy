/** The survey state of the mobile SDK: which survey, response, display and
    user the session belongs to, plus the response accumulated across
    question navigation. The source class is mutable; every operation here
    returns the next state instead. Its methods rebind `responseAcc` to a new
    object and never mutate it in place, so value semantics loses nothing,
    not even the sharing that `copy()` sets up. */
module Survey {
  import opened Wrappers

  /** A response update and the accumulator built from them. `D` is the type
      of answers, `V` the type of variable values; time-to-completion entries
      are numbers. */
  datatype ResponseUpdate<D, V> = ResponseUpdate(
    finished: bool,
    data: map<string, D>,
    ttc: map<string, real>,
    variables: map<string, V>,
    displayId: Option<string>)

  datatype SurveyState<D, V> = SurveyState(
    responseId: Option<string>,
    displayId: Option<string>,
    userId: Option<string>,
    surveyId: string,
    responseAcc: ResponseUpdate<D, V>,
    singleUseId: Option<string>)

  /** `{ finished: false, data: {}, ttc: {}, variables: {} }`. */
  function EmptyAccumulator<D, V>(): (acc: ResponseUpdate<D, V>)
    ensures !acc.finished && acc.displayId == None
    ensures |acc.data| == 0 && |acc.ttc| == 0 && |acc.variables| == 0
  {
    ResponseUpdate(false, map[], map[], map[], None)
  }

  /** `new SurveyState(surveyId, singleUseId, responseId, userId)`; an
      omitted argument and `null` both become `None`. */
  function New<D, V>(surveyId: string, singleUseId: Option<string>, responseId: Option<string>, userId: Option<string>)
    : (s: SurveyState<D, V>)
    ensures s.surveyId == surveyId && s.singleUseId == singleUseId
    ensures s.responseId == responseId && s.userId == userId
    ensures s.displayId == None
    ensures s.responseAcc == EmptyAccumulator()
  {
    SurveyState(responseId, None, userId, surveyId, EmptyAccumulator(), singleUseId)
  }

  /** `clear()`: forgets the response and its accumulated answers, keeps the rest. */
  function Clear<D, V>(s: SurveyState<D, V>): (r: SurveyState<D, V>)
    ensures r.responseId == None && r.responseAcc == EmptyAccumulator()
    ensures r.surveyId == s.surveyId && r.userId == s.userId
    ensures r.displayId == s.displayId && r.singleUseId == s.singleUseId
  {
    s.(responseId := None, responseAcc := EmptyAccumulator())
  }

  /** `setSurveyId(id)`: switches survey, then clears. */
  function SetSurveyId<D, V>(s: SurveyState<D, V>, id: string): (r: SurveyState<D, V>)
    ensures r.surveyId == id
    ensures r.responseId == None && r.responseAcc == EmptyAccumulator()
    ensures r.userId == s.userId && r.displayId == s.displayId && r.singleUseId == s.singleUseId
  {
    Clear(s.(surveyId := id))
  }

  /** `copy()`: a new state with the same ids and the same accumulator, but
      without the display id, which the constructor leaves null. */
  function Copy<D, V>(s: SurveyState<D, V>): (r: SurveyState<D, V>)
    ensures r.surveyId == s.surveyId && r.singleUseId == s.singleUseId
    ensures r.responseId == s.responseId && r.userId == s.userId
    ensures r.responseAcc == s.responseAcc
    ensures r.displayId == None
  {
    var copyInstance := New(s.surveyId, s.singleUseId, s.responseId, s.userId);
    copyInstance.(responseId := s.responseId, responseAcc := s.responseAcc)
  }

  function UpdateResponseId<D, V>(s: SurveyState<D, V>, id: string): (r: SurveyState<D, V>)
    ensures r.responseId == Some(id)
    ensures r.displayId == s.displayId && r.userId == s.userId && r.surveyId == s.surveyId
    ensures r.responseAcc == s.responseAcc && r.singleUseId == s.singleUseId
  {
    s.(responseId := Some(id))
  }

  function UpdateDisplayId<D, V>(s: SurveyState<D, V>, id: string): (r: SurveyState<D, V>)
    ensures r.displayId == Some(id)
    ensures r.responseId == s.responseId && r.userId == s.userId && r.surveyId == s.surveyId
    ensures r.responseAcc == s.responseAcc && r.singleUseId == s.singleUseId
  {
    s.(displayId := Some(id))
  }

  function UpdateUserId<D, V>(s: SurveyState<D, V>, id: string): (r: SurveyState<D, V>)
    ensures r.userId == Some(id)
    ensures r.responseId == s.responseId && r.displayId == s.displayId && r.surveyId == s.surveyId
    ensures r.responseAcc == s.responseAcc && r.singleUseId == s.singleUseId
  {
    s.(userId := Some(id))
  }

  /** `accumulateResponse(u)`: the answers are merged, later keys winning;
      every other accumulator field is taken from `u` as is. */
  function Accumulate<D, V>(s: SurveyState<D, V>, u: ResponseUpdate<D, V>): (r: SurveyState<D, V>)
    ensures r.responseAcc.data.Keys == s.responseAcc.data.Keys + u.data.Keys
    ensures forall k :: k in u.data ==> r.responseAcc.data[k] == u.data[k]
    ensures forall k :: k in s.responseAcc.data && k !in u.data ==>
              r.responseAcc.data[k] == s.responseAcc.data[k]
    ensures r.responseAcc.finished == u.finished && r.responseAcc.ttc == u.ttc
    ensures r.responseAcc.variables == u.variables && r.responseAcc.displayId == u.displayId
    ensures r.surveyId == s.surveyId && r.responseId == s.responseId && r.userId == s.userId
    ensures r.displayId == s.displayId && r.singleUseId == s.singleUseId
  {
    s.(responseAcc := ResponseUpdate(
      u.finished,
      s.responseAcc.data + u.data,
      u.ttc,
      u.variables,
      u.displayId))
  }

  /** `isResponseFinished()`: the finished flag of the accumulated response,
      which only an accumulated update can set. */
  function IsResponseFinished<D, V>(s: SurveyState<D, V>): (b: bool)
    ensures b <==> s.responseAcc.finished
    ensures s.responseAcc == EmptyAccumulator() ==> !b
  {
    s.responseAcc.finished
  }

  /** Accumulates a sequence of updates, first to last. */
  function AccumulateAll<D, V>(s: SurveyState<D, V>, us: seq<ResponseUpdate<D, V>>): SurveyState<D, V>
    decreases |us|
  {
    if us == [] then s else AccumulateAll(Accumulate(s, us[0]), us[1..])
  }

  /** Some update from index `from` on answers `k`. */
  ghost predicate AnsweredFrom<D, V>(us: seq<ResponseUpdate<D, V>>, from: nat, k: string)
  {
    exists j :: from <= j < |us| && k in us[j].data
  }

  /** After a run of updates, a key is answered exactly when it was answered
      before or in some update, and it holds the answer of the last update
      that gave one. */
  lemma {:induction false} AccumulateAllLatestWins<D, V>(s: SurveyState<D, V>, us: seq<ResponseUpdate<D, V>>, k: string)
    ensures var r := AccumulateAll(s, us).responseAcc.data;
            k in r <==> k in s.responseAcc.data || AnsweredFrom(us, 0, k)
    ensures forall j :: 0 <= j < |us| && k in us[j].data && !AnsweredFrom(us, j + 1, k) ==>
              AccumulateAll(s, us).responseAcc.data[k] == us[j].data[k]
    ensures !AnsweredFrom(us, 0, k) && k in s.responseAcc.data ==>
              AccumulateAll(s, us).responseAcc.data[k] == s.responseAcc.data[k]
    decreases |us|
  {
    if us != [] {
      var next := Accumulate(s, us[0]);
      AccumulateAllLatestWins(next, us[1..], k);
      forall j | 0 <= j < |us| && k in us[j].data && !AnsweredFrom(us, j + 1, k)
        ensures AccumulateAll(s, us).responseAcc.data[k] == us[j].data[k]
      {
        if j > 0 {
          assert us[1..][j - 1] == us[j];
        }
      }
      if AnsweredFrom(us[1..], 0, k) {
        var m :| 0 <= m < |us[1..]| && k in us[1..][m].data;
        assert us[1..][m] == us[m + 1];
      }
      if AnsweredFrom(us, 0, k) && !(k in us[0].data) {
        var m :| 0 <= m < |us| && k in us[m].data;
        assert us[1..][m - 1] == us[m];
      }
    }
  }

  /** After a non-empty run of updates the response is finished exactly when
      the last update says so; after none it is unchanged. */
  lemma {:induction false} AccumulateAllFinished<D, V>(s: SurveyState<D, V>, us: seq<ResponseUpdate<D, V>>)
    ensures us != [] ==> IsResponseFinished(AccumulateAll(s, us)) == us[|us| - 1].finished
    ensures us == [] ==> IsResponseFinished(AccumulateAll(s, us)) == IsResponseFinished(s)
    decreases |us|
  {
    if us != [] {
      AccumulateAllFinished(Accumulate(s, us[0]), us[1..]);
      if |us| > 1 {
        assert us[1..][|us[1..]| - 1] == us[|us| - 1];
      }
    }
  }

  /** Accumulating the same update twice is accumulating it once. */
  lemma AccumulateIdempotent<D, V>(s: SurveyState<D, V>, u: ResponseUpdate<D, V>)
    ensures Accumulate(Accumulate(s, u), u) == Accumulate(s, u)
  {
    var once := Accumulate(s, u).responseAcc.data;
    assert once + u.data == once;
  }

  /** A fresh state, and any state just cleared, is not finished. */
  lemma NotFinishedAfterConstructionOrClear<D, V>(s: SurveyState<D, V>, surveyId: string,
      singleUseId: Option<string>, responseId: Option<string>, userId: Option<string>)
    ensures !IsResponseFinished(New<D, V>(surveyId, singleUseId, responseId, userId))
    ensures !IsResponseFinished(Clear(s))
  {
  }

  /** Clearing forgets every accumulated update and response id, whatever came before. */
  lemma ClearForgetsResponse<D, V>(s: SurveyState<D, V>, u: ResponseUpdate<D, V>, id: string)
    ensures Clear(Accumulate(s, u)) == Clear(s)
    ensures Clear(UpdateResponseId(s, id)) == Clear(s)
    ensures Clear(Clear(s)) == Clear(s)
  {
  }

  /** Switching survey gives the state a fresh construction for that survey
      would have, except that the user, single-use and display ids survive. */
  lemma SetSurveyIdStartsOver<D, V>(s: SurveyState<D, V>, id: string)
    ensures SetSurveyId(s, id) == New<D, V>(id, s.singleUseId, None, s.userId).(displayId := s.displayId)
  {
  }

  /** A copy is the original exactly when the original has no display id,
      and copying twice is copying once. */
  lemma CopyDropsOnlyDisplayId<D, V>(s: SurveyState<D, V>)
    ensures Copy(s) == s <==> s.displayId == None
    ensures Copy(Copy(s)) == Copy(s)
  {
  }

  /** Accumulating into the original after copying gives the same accumulator
      as accumulating into the copy: the copy shares the accumulator's value,
      and the original's later updates do not reach it. */
  lemma CopyThenAccumulate<D, V>(s: SurveyState<D, V>, u: ResponseUpdate<D, V>)
    ensures Copy(Accumulate(s, u)) == Accumulate(Copy(s), u)
    ensures Copy(s).responseAcc == s.responseAcc
  {
  }
}
