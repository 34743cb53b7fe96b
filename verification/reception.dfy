/** The client's settings cache and the update script.js `checkAutoStop`
    makes to it after asking the server whether reception should stop. */
module Reception {
  import opened Wrappers

  /** The cached settings; `None` is the `null` cache before settings load. */
  datatype Settings = Settings(reception: bool, joukyou: bool, jidou: bool)

  /** The server's answer; `None` when the call failed. */
  datatype Reply = Reply(shouldStop: bool, waitingPeople: int)

  /** Reception is switched off in the cache when the server says to stop and
      a cache exists; nothing else is touched. */
  function CheckAutoStop(cache: Option<Settings>, reply: Option<Reply>): (r: Option<Settings>)
    ensures r.Some? <==> cache.Some?
    ensures r.Some? ==> r.value.joukyou == cache.value.joukyou && r.value.jidou == cache.value.jidou
    ensures r.Some? && r.value.reception ==> cache.value.reception
    ensures r != cache ==> reply.Some? && reply.value.shouldStop
    ensures cache.Some? && reply.Some? && reply.value.shouldStop ==> r == Some(cache.value.(reception := false))
  {
    if reply.Some? && reply.value.shouldStop && cache.Some? then Some(cache.value.(reception := false))
    else cache
  }

  /** The cache after a run of polls, oldest reply first. */
  function Poll(cache: Option<Settings>, replies: seq<Option<Reply>>): Option<Settings>
    decreases |replies|
  {
    if |replies| == 0 then cache else Poll(CheckAutoStop(cache, replies[0]), replies[1..])
  }

  /** Polling never turns reception on: once off it stays off, and it is on at
      the end only if it was on at the start and no poll said stop. */
  lemma {:induction false} PollNeverEnables(cache: Option<Settings>, replies: seq<Option<Reply>>)
    requires cache.Some?
    ensures Poll(cache, replies).Some?
    ensures Poll(cache, replies).value.reception ==>
      cache.value.reception
      && forall i :: 0 <= i < |replies| ==> !(replies[i].Some? && replies[i].value.shouldStop)
    decreases |replies|
  {
    if |replies| > 0 {
      var next := CheckAutoStop(cache, replies[0]);
      PollNeverEnables(next, replies[1..]);
      if Poll(cache, replies).value.reception {
        forall i | 0 <= i < |replies|
          ensures !(replies[i].Some? && replies[i].value.shouldStop)
        {
          if i > 0 {
            assert replies[i] == replies[1..][i - 1];
          }
        }
      }
    }
  }
}
