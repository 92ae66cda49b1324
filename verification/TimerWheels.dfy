/** The idle-timeout wheel of ae/timer_wheel.h: a ring of reference sets, one of which is cleared
    every second. */
module TimerWheels {
  import opened Options

  // ---------- The clock the wheel implements ----------

  /** `log` has what was inserted during each tick so far, the current one last. The age of the
      last insertion of `v`, in ticks; `|log|` if there was none. */
  ghost function LastAge<T>(log: seq<set<T>>, v: T): (age: nat)
    ensures age <= |log|
  {
    if log == [] || v in log[|log| - 1] then 0 else 1 + LastAge(log[..|log| - 1], v)
  }

  /** What was inserted `age` ticks ago. */
  ghost function InsertedAgo<T>(log: seq<set<T>>, age: nat): set<T> {
    if age < |log| then log[|log| - 1 - age] else {}
  }

  lemma {:induction false} LastAgeMeaning<T>(log: seq<set<T>>, v: T)
    ensures var age := LastAge(log, v);
      && (age < |log| ==> v in InsertedAgo(log, age))
      && (forall b: nat :: b < age ==> v !in InsertedAgo(log, b))
  {
    if log != [] && v !in log[|log| - 1] {
      var front := log[..|log| - 1];
      LastAgeMeaning(front, v);
      forall b: nat | b < LastAge(log, v) ensures v !in InsertedAgo(log, b) {
        if b > 0 { assert InsertedAgo(log, b) == InsertedAgo(front, b - 1); }
      }
      assert InsertedAgo(log, LastAge(log, v)) == InsertedAgo(front, LastAge(front, v));
    }
  }

  /** The bucket filled `age` ticks ago: `(index - age) mod size`. */
  function Slot(index: nat, size: nat, age: nat): (slot: nat)
    requires index < size && age < size
    ensures slot < size
  {
    if age <= index then index - age else index + size - age
  }

  /** Every bucket has exactly what was inserted the corresponding number of ticks ago. */
  ghost predicate Aligned<T>(wheel: seq<set<T>>, index: nat, log: seq<set<T>>) {
    && index < |wheel| && log != []
    && forall age {:trigger InsertedAgo(log, age)} :: 0 <= age < |wheel| ==>
         wheel[Slot(index, |wheel|, age)] == InsertedAgo(log, age)
  }

  ghost predicate Held<T>(wheel: seq<set<T>>, v: T) {
    exists i :: 0 <= i < |wheel| && v in wheel[i]
  }

  /** A value is held exactly while its last insertion is less than one turn old. */
  lemma HeldIffRecent<T>(wheel: seq<set<T>>, index: nat, log: seq<set<T>>, v: T)
    requires Aligned(wheel, index, log)
    ensures Held(wheel, v) <==> LastAge(log, v) < |log| && LastAge(log, v) < |wheel|
  {
    var n, age := |wheel|, LastAge(log, v);
    LastAgeMeaning(log, v);
    if age < |log| && age < n {
      assert v in InsertedAgo(log, age);
      assert v in wheel[Slot(index, n, age)];
    }
    if Held(wheel, v) {
      var i :| 0 <= i < n && v in wheel[i];
      var b := Slot(index, n, i);
      assert Slot(index, n, b) == i;
      assert v in InsertedAgo(log, b);
    }
  }

  lemma {:induction false} AgeOfQuietTicks<T>(log: seq<set<T>>, later: seq<set<T>>, v: T)
    requires log != [] && v in log[|log| - 1] && forall i :: 0 <= i < |later| ==> v !in later[i]
    ensures LastAge(log + later, v) == |later|
  {
    if later == [] {
      assert log + later == log;
    } else {
      var front := later[..|later| - 1];
      AgeOfQuietTicks(log, front, v);
      assert (log + later)[..|log + later| - 1] == log + front;
    }
  }

  /** Tick-exact expiry: a value inserted and then left alone stays through the ticks of one turn
      and leaves at the last of them, never earlier. */
  lemma LeavesAfterOneTurn<T>(wheel: seq<set<T>>, index: nat, log: seq<set<T>>, later: seq<set<T>>, v: T)
    requires log != [] && v in log[|log| - 1] && forall i :: 0 <= i < |later| ==> v !in later[i]
    requires Aligned(wheel, index, log + later)
    ensures Held(wheel, v) <==> |later| < |wheel|
  {
    AgeOfQuietTicks(log, later, v);
    HeldIffRecent(wheel, index, log + later, v);
  }

  lemma LastAgeNextTick<T>(log: seq<set<T>>, v: T)
    ensures LastAge(log + [{}], v) == LastAge(log, v) + 1
  {
    assert (log + [{}])[..|log|] == log;
  }

  lemma LastAgeInsert<T>(log: seq<set<T>>, x: T, v: T)
    requires log != []
    ensures var log' := log[|log| - 1 := log[|log| - 1] + {x}];
      LastAge(log', v) == if v == x then 0 else LastAge(log, v)
  {
    var log' := log[|log| - 1 := log[|log| - 1] + {x}];
    assert log'[..|log| - 1] == log[..|log| - 1];
  }

  // ---------- The wheel ----------

  lemma TickAligned<T>(wheel: seq<set<T>>, index: nat, log: seq<set<T>>, next: nat)
    requires Aligned(wheel, index, log) && next == if index + 1 == |wheel| then 0 else index + 1
    ensures Aligned(wheel[next := {}], next, log + [{}])
    ensures wheel[next] == InsertedAgo(log, |wheel| - 1)
  {
    var n, wheel', log' := |wheel|, wheel[next := {}], log + [{}];
    assert Slot(index, n, n - 1) == next;
    forall age | 0 <= age < n ensures wheel'[Slot(next, n, age)] == InsertedAgo(log', age) {
      if age > 0 {
        assert Slot(next, n, age) == Slot(index, n, age - 1);
        assert InsertedAgo(log', age) == InsertedAgo(log, age - 1);
      }
    }
  }

  lemma InsertAligned<T>(wheel: seq<set<T>>, index: nat, log: seq<set<T>>, x: T)
    requires Aligned(wheel, index, log)
    ensures Aligned(wheel[index := wheel[index] + {x}], index, log[|log| - 1 := log[|log| - 1] + {x}])
  {
    var n := |wheel|;
    var wheel', log' := wheel[index := wheel[index] + {x}], log[|log| - 1 := log[|log| - 1] + {x}];
    forall age | 0 <= age < n ensures wheel'[Slot(index, n, age)] == InsertedAgo(log', age) {
      assert wheel[Slot(index, n, age)] == InsertedAgo(log, age);
    }
  }

  /** `std::vector::resize`. */
  function Resized<T>(wheel: seq<set<T>>, size: nat): (r: seq<set<T>>)
    ensures |r| == size && forall i :: 0 <= i < size ==> r[i] == if i < |wheel| then wheel[i] else {}
    ensures size == |wheel| ==> r == wheel
  {
    if size <= |wheel| then wheel[..size] else wheel + seq(size - |wheel|, _ => {})
  }

  class TimerWheel<T(==)> {
    var index: nat
    var timeoutSec: nat
    var wheel: seq<set<T>>
    ghost var log: seq<set<T>>

    /** Once started, a wheel with a timeout has that many buckets and is in step with the clock. */
    ghost predicate Running()
      reads this
    {
      |wheel| == timeoutSec && (timeoutSec > 0 ==> Aligned(wheel, index, log))
    }

    constructor (timeout: nat)
      ensures timeoutSec == timeout && wheel == [] && index == 0 && log == []
    {
      index, timeoutSec, wheel, log := 0, timeout, [], [];
    }

    method SetTimeout(seconds: nat)
      modifies this
      ensures timeoutSec == seconds && index == old(index) && wheel == old(wheel) && log == old(log)
    {
      timeoutSec := seconds;
    }

    /** The first start makes the buckets; starting again changes nothing, unless the timeout was
        changed in between: the ring is then cut or extended, and need not be in step any more. */
    method Start()
      modifies this
      ensures timeoutSec == old(timeoutSec) && index == old(index)
      ensures wheel == if timeoutSec == 0 then old(wheel) else Resized(old(wheel), timeoutSec)
      ensures old(wheel) == [] && index == 0 ==>
        Running() && log == [{}] && forall i :: 0 <= i < |wheel| ==> wheel[i] == {}
      ensures old(Running()) && old(wheel) != [] ==> Running() && wheel == old(wheel) && log == old(log)
    {
      if wheel == [] {
        log := [{}];
      }
      if timeoutSec > 0 {
        wheel := Resized(wheel, timeoutSec);
      }
    }

    method Insert(value: Option<T>)
      requires Running()
      modifies this
      ensures Running() && timeoutSec == old(timeoutSec) && index == old(index)
      ensures if timeoutSec > 0 && value.Some?
        then wheel == old(wheel)[index := old(wheel)[index] + {value.value}]
             && log == old(log)[|old(log)| - 1 := old(log)[|old(log)| - 1] + {value.value}]
        else wheel == old(wheel) && log == old(log)
    {
      if timeoutSec > 0 && value.Some? {
        InsertAligned(wheel, index, log, value.value);
        wheel := wheel[index := wheel[index] + {value.value}];
        log := log[|log| - 1 := log[|log| - 1] + {value.value}];
      }
    }

    /** The one-second timer. What was in the cleared bucket loses a reference: it is what was
        inserted exactly one turn ago. */
    method WheelCallback() returns (dropped: set<T>)
      requires Running()
      modifies this
      ensures Running() && timeoutSec == old(timeoutSec)
      ensures if timeoutSec == 0 then dropped == {} && wheel == old(wheel) && log == old(log)
        else log == old(log) + [{}] && index < |wheel|
             && wheel == old(wheel)[index := {}] && dropped == old(wheel)[index]
             && dropped == InsertedAgo(old(log), timeoutSec - 1)
    {
      dropped := {};
      if timeoutSec == 0 {
        return;
      }
      ghost var before := index;
      index := index + 1;
      if index == timeoutSec {
        index := 0;
      }
      TickAligned(wheel, before, log, index);
      dropped := wheel[index];
      wheel := wheel[index := {}];
      log := log + [{}];
    }
  }
}
