/** The read path as it runs: one pass over the fetched matches that stops at the k-th live one. */
module Reader {
  import opened Prelude
  import opened Records
  import opened Environment
  import opened Tables
  import opened Backends
  import opened Reading
  import Text

  class MemoryReader {
    const backend: Backend

    constructor (backend: Backend)
      ensures this.backend == backend
    {
      this.backend := backend;
    }

    method Recall(user: UserId, query: string, limit: Option<nat>, now: int) returns (recalls: seq<Recall>)
      requires backend.Valid()
      ensures recalls == Recalls(backend.env, Row(backend.memories, user), query, limit, now)
    {
      var k := Wanted(backend.env, limit);
      recalls := [];
      if Text.Strip(query) == "" {
        return;
      }
      var items := backend.SearchMemories(user, query, k * OVERFETCH);
      recalls := FirstLive(Row(backend.memories, user), items, now, k);
    }

    /** The first k live records of a ranking; the rest of the ranking is not looked at. */
    static method FirstLive(ns: Namespace, items: seq<Hit>, now: int, k: nat) returns (recalls: seq<Recall>)
      requires k >= 1 && forall i :: 0 <= i < |items| ==> items[i].key in ns
      ensures recalls == Take(LiveRecalls(ns, items, now), k)
    {
      recalls := [];
      for i := 0 to |items|
        invariant recalls == LiveRecalls(ns, items[..i], now) && |recalls| < k
      {
        assert items[..i + 1] == items[..i] + [items[i]];
        LiveSnoc(ns, items[..i], items[i], now);
        if !ns[items[i].key].IsActive(now) {
          continue;
        }
        recalls := recalls + [RecallOf(ns, items[i])];
        if |recalls| == k {
          assert items == items[..i + 1] + items[i + 1..];
          LiveAppend(ns, items[..i + 1], items[i + 1..], now);
          return;
        }
      }
      assert items[..|items|] == items;
    }
  }
}
