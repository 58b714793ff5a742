/** The removal queue (Assets/Scripts/QueueDictionary.cs): a FIFO queue of
    keys, each with a value in a dictionary, where looking up a missing key
    creates its value with a generator and queues the key. */
module QueueDictionaries {
  import opened Basics

  // ---------------------------------------------------------------------
  // The queue-dictionary as a value.

  datatype QueueDict<K, V> = QueueDict(queue: seq<K>, dict: map<K, V>)

  predicate Distinct<K(==)>(s: seq<K>) {
    forall i, j :: 0 <= i < j < |s| ==> s[i] != s[j]
  }

  /** Every queued key appears once, and the queued keys are exactly the
      dictionary's keys. */
  predicate Inv<K, V>(q: QueueDict<K, V>) {
    Distinct(q.queue)
    && (forall k :: k in q.queue ==> k in q.dict)
    && (forall k :: k in q.dict ==> k in q.queue)
  }

  function Empty<K, V>(): (q: QueueDict<K, V>)
    ensures Inv(q) && q.queue == [] && q.dict == map[]
  {
    QueueDict([], map[])
  }

  /** The getter `this[key]`: the stored value, or, for a missing key, the
      generated one, stored and queued at the back. */
  function Lookup<K, V>(q: QueueDict<K, V>, k: K, generated: V): (QueueDict<K, V>, V) {
    if k !in q.dict then (QueueDict(q.queue + [k], q.dict[k := generated]), generated)
    else (q, q.dict[k])
  }

  /** The setter `this[key] = value`: a new key is queued at the back, an
      existing key keeps its place. */
  function Store<K, V>(q: QueueDict<K, V>, k: K, v: V): QueueDict<K, V> {
    QueueDict(if k !in q.dict then q.queue + [k] else q.queue, q.dict[k := v])
  }

  /** `Peek`: the front key and its value; `None` where the source throws
      on an empty queue. */
  function Front<K, V>(q: QueueDict<K, V>): (r: Option<(K, V)>)
    requires Inv(q)
    ensures r.None? <==> q.queue == []
  {
    if q.queue == [] then None else Some((q.queue[0], q.dict[q.queue[0]]))
  }

  /** `Dequeue` on a non-empty queue: the front key leaves the queue and
      the dictionary. */
  function Dequeued<K, V>(q: QueueDict<K, V>): QueueDict<K, V>
    requires q.queue != []
  {
    QueueDict(q.queue[1..], q.dict - {q.queue[0]})
  }

  /** Lookup, store and dequeue keep the queue and the dictionary in step,
      and lookup hands back exactly what the dictionary then holds. */
  lemma OperationsKeepInv<K, V>(q: QueueDict<K, V>, k: K, v: V)
    requires Inv(q)
    ensures Inv(Lookup(q, k, v).0) && Inv(Store(q, k, v))
    ensures k in Lookup(q, k, v).0.dict && Lookup(q, k, v).0.dict[k] == Lookup(q, k, v).1
    ensures q.queue != [] ==> Inv(Dequeued(q))
  {
    if q.queue != [] {
      var d := Dequeued(q);
      forall x ensures x in d.queue <==> x in d.dict {
        if x in d.queue {
          var i :| 0 <= i < |d.queue| && d.queue[i] == x;
          assert q.queue[i + 1] == x;
        }
        if x in d.dict {
          assert x in q.queue && x != q.queue[0];
          var i :| 0 <= i < |q.queue| && q.queue[i] == x;
          assert d.queue[i - 1] == x;
        }
      }
    }
  }

  /** Looking up a key that is present changes nothing. */
  lemma LookupPresentIsPure<K, V>(q: QueueDict<K, V>, k: K, generated: V)
    requires k in q.dict
    ensures Lookup(q, k, generated) == (q, q.dict[k])
  {
  }

  /** A lookup after a store returns the stored value and changes nothing. */
  lemma LookupAfterStore<K, V>(q: QueueDict<K, V>, k: K, v: V, generated: V)
    ensures Lookup(Store(q, k, v), k, generated) == (Store(q, k, v), v)
  {
  }

  /** Storing never changes which key is at the front: keys leave in the
      order they were first inserted, whatever values they were later given. */
  lemma StoreKeepsFront<K, V>(q: QueueDict<K, V>, k: K, v: V)
    requires Inv(q) && q.queue != []
    ensures Inv(Store(q, k, v))
    ensures Front(Store(q, k, v)).value.0 == Front(q).value.0
    ensures Dequeued(Store(q, k, v)).queue == Dequeued(q).queue + (if k in q.dict then [] else [k])
  {
    OperationsKeepInv(q, k, v);
  }

  /** `Dequeue` hands back the front key with its current value and leaves
      every other key with its value. */
  lemma DequeueReturnsFront<K, V>(q: QueueDict<K, V>)
    requires Inv(q) && q.queue != []
    ensures Front(q) == Some((q.queue[0], q.dict[q.queue[0]]))
    ensures q.queue[0] !in Dequeued(q).dict
    ensures forall x :: x in q.dict && x != q.queue[0] ==> x in Dequeued(q).dict && Dequeued(q).dict[x] == q.dict[x]
  {
  }

  /** A single store into an empty queue-dictionary is dequeued again as
      the same pair, leaving it empty. */
  lemma StoreThenDequeue<K, V>(k: K, v: V)
    ensures Front(Store(Empty(), k, v)) == Some((k, v))
    ensures Dequeued(Store(Empty<K, V>(), k, v)) == Empty()
  {
  }

  // ---------------------------------------------------------------------
  // The queue-dictionary itself.

  class QueueDictionary<K(==), V> {
    var queue: seq<K>
    var dict: map<K, V>
    /** `generator`: the value a missing key is given. */
    const generated: V

    ghost predicate Valid()
      reads this
    {
      Inv(Model())
    }

    ghost function Model(): QueueDict<K, V>
      reads this
    {
      QueueDict(queue, dict)
    }

    constructor (generated: V)
      ensures Valid() && Model() == Empty() && this.generated == generated
    {
      this.generated := generated;
      queue := [];
      dict := map[];
    }

    /** `Peek`. */
    method Peek() returns (r: Option<(K, V)>)
      requires Valid()
      ensures r == Front(Model())
    {
      if |queue| == 0 {
        return None;
      }
      r := Some((queue[0], dict[queue[0]]));
    }

    /** `Dequeue`; an empty queue (where the source throws) is left as is. */
    method Dequeue() returns (r: Option<(K, V)>)
      requires Valid()
      modifies this
      ensures Valid()
      ensures r == Front(old(Model()))
      ensures r.None? ==> Model() == old(Model())
      ensures r.Some? ==> old(Model()).queue != [] && Model() == Dequeued(old(Model()))
    {
      if |queue| == 0 {
        return None;
      }
      OperationsKeepInv(Model(), queue[0], generated);
      var key := queue[0];
      queue := queue[1..];
      r := Some((key, dict[key]));
      dict := dict - {key};
    }

    /** `Any`. */
    method Any() returns (b: bool)
      requires Valid()
      ensures b <==> Model().queue != []
    {
      b := |queue| != 0;
    }

    /** The getter `this[key]`. */
    method Get(key: K) returns (v: V)
      requires Valid()
      modifies this
      ensures Valid()
      ensures (Model(), v) == Lookup(old(Model()), key, generated)
    {
      OperationsKeepInv(Model(), key, generated);
      if key !in dict {
        dict := dict[key := generated];
        queue := queue + [key];
      }
      v := dict[key];
    }

    /** The setter `this[key] = value`. */
    method Set(key: K, value: V)
      requires Valid()
      modifies this
      ensures Valid()
      ensures Model() == Store(old(Model()), key, value)
    {
      OperationsKeepInv(Model(), key, value);
      if key !in dict {
        queue := queue + [key];
      }
      dict := dict[key := value];
    }

    /** `Clear`. */
    method Clear()
      requires Valid()
      modifies this
      ensures Valid() && Model() == Empty()
    {
      dict := map[];
      queue := [];
    }
  }
}
