/** The in-memory record of forum threads the bot watches: each known thread id
    maps to whether its log has been processed. */
module Threads {

  /** A thread id (a Discord snowflake). */
  type Snowflake = nat

  /** `HasThread` on a snapshot of the dictionary. */
  predicate Known(m: map<Snowflake, bool>, id: Snowflake) {
    id in m
  }

  /** `HasProcessedThread` on a snapshot: `TryGetValue` succeeds and the value is set. */
  predicate Processed(m: map<Snowflake, bool>, id: Snowflake) {
    id in m && m[id]
  }

  /** `AddThread`: an unknown id is added unprocessed; a known id keeps its flag. */
  function Added(m: map<Snowflake, bool>, id: Snowflake): (r: map<Snowflake, bool>)
    ensures Known(r, id)
    ensures Processed(r, id) <==> Processed(m, id)
    ensures forall x :: x != id ==> (x in r <==> x in m)
    ensures forall x :: x in m ==> x in r && r[x] == m[x]
  {
    if id in m then m else m[id := false]
  }

  /** `RemoveThread`: the id is forgotten, whether it was known or not. */
  function Removed(m: map<Snowflake, bool>, id: Snowflake): (r: map<Snowflake, bool>)
    ensures !Known(r, id)
    ensures forall x :: x != id ==> (x in r <==> x in m)
    ensures forall x :: x in r ==> r[x] == m[x]
  {
    m - {id}
  }

  /** `MarkThreadProcessed`: the indexer sets the flag, adding the id if it was unknown. */
  function Marked(m: map<Snowflake, bool>, id: Snowflake): (r: map<Snowflake, bool>)
    ensures Processed(r, id)
    ensures forall x :: x != id ==> (x in r <==> x in m)
    ensures forall x :: x != id && x in r ==> r[x] == m[x]
  {
    m[id := true]
  }

  /** Adding a thread again changes nothing. */
  lemma AddIdempotent(m: map<Snowflake, bool>, id: Snowflake)
    ensures Added(Added(m, id), id) == Added(m, id)
  {
  }

  /** A processed thread that is added again stays processed. */
  lemma AddAfterMarkKeepsFlag(m: map<Snowflake, bool>, id: Snowflake)
    ensures Added(Marked(m, id), id) == Marked(m, id)
  {
  }

  /** A removed thread that comes back starts over, unprocessed. */
  lemma RemoveThenAddResets(m: map<Snowflake, bool>, id: Snowflake)
    ensures Known(Added(Removed(m, id), id), id)
    ensures !Processed(Added(Removed(m, id), id), id)
  {
  }

  /** The operations on one id leave every other id as it was. */
  lemma OtherThreadsUnaffected(m: map<Snowflake, bool>, id: Snowflake, other: Snowflake)
    requires other != id
    ensures Known(Added(m, id), other) == Known(m, other)
    ensures Known(Removed(m, id), other) == Known(m, other)
    ensures Known(Marked(m, id), other) == Known(m, other)
    ensures Processed(Added(m, id), other) == Processed(m, other)
    ensures Processed(Removed(m, id), other) == Processed(m, other)
    ensures Processed(Marked(m, id), other) == Processed(m, other)
  {
  }

  class ThreadRepository {
    var threads: map<Snowflake, bool>

    constructor ()
      ensures threads == map[]
    {
      threads := map[];
    }

    method AddThread(id: Snowflake)
      modifies this
      ensures threads == Added(old(threads), id)
      ensures HasThread(id)
      ensures HasProcessedThread(id) == old(HasProcessedThread(id))
    {
      if HasThread(id) {
        return;
      }
      threads := threads[id := false];
    }

    method RemoveThread(id: Snowflake)
      modifies this
      ensures threads == Removed(old(threads), id)
      ensures !HasThread(id) && !HasProcessedThread(id)
    {
      threads := threads - {id};
    }

    method MarkThreadProcessed(id: Snowflake)
      modifies this
      ensures threads == Marked(old(threads), id)
      ensures HasThread(id) && HasProcessedThread(id)
    {
      threads := threads[id := true];
    }

    predicate HasThread(id: Snowflake)
      reads this
    {
      Known(threads, id)
    }

    /** A processed thread is always a known one. */
    predicate HasProcessedThread(id: Snowflake)
      reads this
      ensures HasProcessedThread(id) ==> HasThread(id)
    {
      Processed(threads, id)
    }
  }
}
