/** The topic registry: a growable slice of topic workers, searched by linear scan on
    the topic name, whose capacity doubles when an entry is added to a full slice. */
module Registry {
  import opened Topics

  /** The names of a run of topics, in order. */
  function NamesOf(ts: seq<Topic>): seq<string>
  {
    seq(|ts|, i requires 0 <= i < |ts| => ts[i].name)
  }

  /** No two topics of the run share a name. */
  predicate UniqueNames(ts: seq<Topic>)
  {
    forall i, j :: 0 <= i < j < |ts| ==> ts[i].name != ts[j].name
  }

  /** A topic of a run has its name among the run's names. */
  lemma NameOfMember(ts: seq<Topic>, t: Topic)
    requires t in ts
    ensures t.name in NamesOf(ts)
  {
    var i :| 0 <= i < |ts| && ts[i] == t;
    assert NamesOf(ts)[i] == t.name;
  }

  /** In a run with unique names, a topic is the only one carrying its name. */
  lemma UniqueNamesIdentify(ts: seq<Topic>, t: Topic)
    requires UniqueNames(ts) && t in ts
    ensures forall u :: u in ts && u.name == t.name ==> u == t
  {
  }

  /** The capacity after adding one entry to a slice of length `len` and capacity `cap`:
      a full slice has its capacity doubled, and appending to a slice of capacity 0
      makes Go allocate room for one. */
  function GrownCapacity(len: nat, cap: nat): nat
  {
    if len < cap then cap else if cap == 0 then 1 else 2 * cap
  }

  /** The capacity after adding `n` new topics, one at a time, to a slice of length `len`
      and capacity `cap`. */
  function CapacityAfter(cap: nat, len: nat, n: nat): nat
    decreases n
  {
    if n == 0 then cap else CapacityAfter(GrownCapacity(len, cap), len + 1, n - 1)
  }

  /** Growth always leaves room for every entry added. */
  lemma {:induction false} CapacityAfterCovers(cap: nat, len: nat, n: nat)
    requires len <= cap
    ensures len + n <= CapacityAfter(cap, len, n)
    decreases n
  {
    if n > 0 {
      CapacityAfterCovers(GrownCapacity(len, cap), len + 1, n - 1);
    }
  }

  /** While the added entries fit, the capacity does not change. */
  lemma {:induction false} CapacityKeptWhileRoom(cap: nat, len: nat, n: nat)
    requires len + n <= cap
    ensures CapacityAfter(cap, len, n) == cap
    decreases n
  {
    if n > 0 {
      CapacityKeptWhileRoom(cap, len + 1, n - 1);
    }
  }

  /** Overflowing a non-empty capacity C by at most C more entries doubles it exactly once. */
  lemma {:induction false} CapacityDoublesOnce(cap: nat, len: nat, n: nat)
    requires 0 < cap && len <= cap < len + n <= 2 * cap
    ensures CapacityAfter(cap, len, n) == 2 * cap
    decreases n
  {
    if len < cap {
      CapacityDoublesOnce(cap, len + 1, n - 1);
    } else {
      CapacityKeptWhileRoom(2 * cap, len + 1, n - 1);
    }
  }

  /** One more addition grows the capacity reached after the earlier ones. */
  lemma {:induction false} CapacityAfterStep(cap: nat, len: nat, n: nat)
    ensures CapacityAfter(cap, len, n + 1) == GrownCapacity(len + n, CapacityAfter(cap, len, n))
    decreases n
  {
    if n > 0 {
      CapacityAfterStep(GrownCapacity(len, cap), len + 1, n - 1);
    }
  }

  /** A []*topic slice: the backing array's length is the capacity, `len` the length. */
  class TopicTable {
    var slots: array<Topic?>
    var len: nat
    /** The slice's contents, slots[..len]. */
    ghost var Topics: seq<Topic>

    ghost predicate Valid()
      reads this, slots
    {
      && len <= slots.Length
      && |Topics| == len
      && forall i :: 0 <= i < len ==> slots[i] == Topics[i]
    }

    /** make([]*topic, 0, capacity). */
    constructor (capacity: nat)
      ensures Valid() && fresh(slots)
      ensures Topics == [] && slots.Length == capacity
    {
      slots := new Topic?[capacity];
      len := 0;
      Topics := [];
    }

    /** len(topics). */
    function Len(): (n: nat)
      requires Valid()
      reads this, slots
      ensures n == |Topics|
    {
      len
    }

    /** cap(topics): never below the length. */
    function Cap(): (c: nat)
      requires Valid()
      reads this, slots
      ensures |Topics| <= c
    {
      slots.Length
    }

    /** The scan of `topic`: the first entry named `name`, or null when there is none. */
    method Find(name: string) returns (t: Topic?)
      requires Valid()
      ensures t == null <==> name !in NamesOf(Topics)
      ensures t != null ==> t.name == name && exists i :: 0 <= i < |Topics| && Topics[i] == t && name !in NamesOf(Topics[..i])
    {
      var i := 0;
      while i < len
        invariant i <= len
        invariant name !in NamesOf(Topics[..i])
      {
        var tpc := slots[i];
        if tpc.name == name {
          assert NamesOf(Topics)[i] == name;
          return tpc;
        }
        assert NamesOf(Topics[..i + 1]) == NamesOf(Topics[..i]) + [tpc.name];
        i := i + 1;
      }
      assert Topics[..i] == Topics;
      return null;
    }

    /** doubleCapacity: a new backing array of twice the capacity holding the same entries. */
    method DoubleCapacity()
      requires Valid()
      modifies this
      ensures Valid() && fresh(slots)
      ensures Topics == old(Topics) && slots.Length == 2 * old(slots.Length)
    {
      var l := len;
      var c := slots.Length * 2;
      var grown := new Topic?[c];
      var i := 0;
      while i < l
        modifies grown
        invariant i <= l
        invariant forall j :: 0 <= j < i ==> grown[j] == slots[j]
      {
        grown[i] := slots[i];
        i := i + 1;
      }
      slots := grown;
    }

    /** Go's append of one entry, in the two cases `addTopic` reaches: there is room, or
        the capacity is 0 and Go allocates room for one. */
    method Append(t: Topic)
      requires Valid()
      requires len < slots.Length || slots.Length == 0
      modifies this, slots
      ensures Valid()
      ensures Topics == old(Topics) + [t]
      ensures old(len) < old(slots.Length) ==> slots == old(slots)
      ensures old(slots.Length) == 0 ==> fresh(slots) && slots.Length == 1
    {
      if len == slots.Length {
        slots := new Topic?[1];
      }
      slots[len] := t;
      len := len + 1;
      Topics := Topics + [t];
    }

    /** addTopic: the new topic goes last, every earlier entry keeps its index, and the
        capacity doubles exactly when the slice was full. */
    method Add(t: Topic)
      requires Valid()
      modifies this, slots
      ensures Valid()
      ensures Topics == old(Topics) + [t]
      ensures slots.Length == GrownCapacity(old(len), old(slots.Length))
      ensures old(len) < old(slots.Length) ==> slots == old(slots)
      ensures old(len) == old(slots.Length) ==> fresh(slots)
    {
      if len == slots.Length {
        DoubleCapacity();
      }
      Append(t);
    }

    /** topic: the entry named `name` if there is one, otherwise a new topic appended to
        the table. Names stay unique. Go's make panics on a negative channel size, so a
        new topic needs a buffer that is not negative. */
    method LookupOrCreate(name: string, buffer: int) returns (t: Topic)
      requires Valid()
      requires name !in NamesOf(Topics) ==> buffer >= 0
      modifies this, slots
      ensures Valid() && t.name == name && t in Topics
      ensures UniqueNames(old(Topics)) ==> UniqueNames(Topics)
      ensures name in NamesOf(old(Topics)) ==>
                Topics == old(Topics) && len == old(len) && slots == old(slots) && unchanged(slots)
      ensures name !in NamesOf(old(Topics)) ==>
                && fresh(t) && Topics == old(Topics) + [t]
                && t.buffer == buffer && t.queue == [] && t.log == [] && !t.stopped
                && slots.Length == GrownCapacity(old(len), old(slots.Length))
                && (old(len) == old(slots.Length) ==> fresh(slots))
    {
      var found := Find(name);
      if found != null {
        return found;
      }
      t := new Topic(name, buffer as nat);
      Add(t);
      assert forall i :: 0 <= i < |old(Topics)| ==> Topics[i].name == NamesOf(old(Topics))[i];
    }
  }
}
