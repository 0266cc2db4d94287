/**
 Everything the agent is configured with or calls out to: the store's orderings, the
 extractor, the embedder, the chat model, the digests. All are arbitrary functions, so
 what is proved holds for every one of them that meets `Valid`.
 */
module Environment {
  import opened Prelude
  import opened Records

  /** One search result. A store without a vector index gives no score. */
  datatype Hit = Hit(key: MemoryId, score: Option<real>)

  datatype Env = Env(
    listMemories: Namespace -> seq<MemoryId>,
    listQuarantine: map<QuarantineKey, Quarantined> -> seq<QuarantineKey>,
    listThreads: map<ThreadId, IndexEntry> -> seq<ThreadId>,
    rank: (Namespace, string) -> seq<Hit>,
    extract: string -> seq<RawFact>,
    temporal: string -> bool,
    markers: string -> seq<string>,
    scanTrusted: bool,
    memory: bool,
    embed: string -> seq<real>,
    dims: nat,
    sqrt: real -> real,
    similarity: real,
    lower: char -> string,
    sha256: string -> string,
    blake2b: string -> string,
    prompt: seq<Recall> -> string,
    model: seq<Message> -> string,
    topK: nat
  ) {
    /** Listing a namespace yields each of its keys once, in an order fixed by its contents. */
    ghost predicate ListsAll() {
      && (forall ns :: Enumerates(listMemories(ns), ns.Keys))
      && (forall ns :: Enumerates(listQuarantine(ns), ns.Keys))
      && (forall ns :: Enumerates(listThreads(ns), ns.Keys))
    }

    /** A query ranks some of the namespace's own records, none of them twice. */
    ghost predicate RanksOwn() {
      forall ns, query :: RanksWithin(rank(ns, query), ns)
    }

    ghost predicate EmbedsUniformly() {
      forall text :: |embed(text)| == dims
    }

    /** The digest is idealised: distinct texts have distinct digests. */
    ghost predicate DigestInjective() {
      forall a, b :: sha256(a) == sha256(b) ==> a == b
    }

    ghost predicate Valid() {
      && ListsAll()
      && RanksOwn()
      && EmbedsUniformly()
      && DigestInjective()
      && topK >= 1
    }
  }

  ghost predicate RanksWithin(hits: seq<Hit>, ns: Namespace) {
    && (forall i :: 0 <= i < |hits| ==> hits[i].key in ns)
    && (forall i, j :: 0 <= i < j < |hits| ==> hits[i].key != hits[j].key)
  }

  ghost predicate IsSqrt(sqrt: real -> real) {
    forall x :: x >= 0.0 ==> sqrt(x) >= 0.0 && sqrt(x) * sqrt(x) == x
  }

  // ------------------------------------------------- the hypotheses can be met

  ghost function Listing<K(!new)>(keys: set<K>): (xs: seq<K>)
    ensures Enumerates(xs, keys)
    decreases |keys|
  {
    if keys == {} then []
    else
      var x :| x in keys;
      Listing(keys - {x}) + [x]
  }

  /** Some environment is valid, so what is proved of all of them is not empty talk. */
  lemma ValidEnvironment() returns (env: Env)
    ensures env.Valid()
  {
    env := Env(
      (ns: Namespace) => Listing(ns.Keys),
      (q: map<QuarantineKey, Quarantined>) => Listing(q.Keys),
      (threads: map<ThreadId, IndexEntry>) => Listing(threads.Keys),
      (ns: Namespace, query: string) => [],
      (turn: string) => [],
      (turn: string) => false,
      (text: string) => [],
      true, true,
      (text: string) => [], 0, (x: real) => x, 0.9,
      (c: char) => [c],
      (text: string) => text,
      (text: string) => text,
      (recalls: seq<Recall>) => "",
      (messages: seq<Message>) => "",
      5);
  }
}
