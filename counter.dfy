/** The counter and adder of `CombinedTool` in `src/main.rs`: one `i32`
    field that `increment` and `decrement` change in place, `get_value`
    that reads it, and `add`, which ignores it. Arithmetic on `i32` is
    two's-complement with wrap-around, as in a release build. */
module Counter {

  import opened Bits

  type i32 = x: int | -0x8000_0000 <= x < 0x8000_0000

  /** The `i32` that wrapping arithmetic yields for the exact result `x`:
      the one value in range that differs from `x` by a multiple of 2^32. */
  function Wrap(x: int): (r: i32)
    ensures (r - x) % WORD == 0
    ensures -0x8000_0000 <= x < 0x8000_0000 ==> r == x
  {
    var r := (x + 0x8000_0000) % WORD - 0x8000_0000;
    assert r - x == ((x + 0x8000_0000) / WORD) * -0x1_0000_0000;
    r
  }

  /** Two numbers that differ by a multiple of 2^32 wrap to the same `i32`. */
  lemma WrapCongruent(x: int, y: int)
    requires (x - y) % WORD == 0
    ensures Wrap(x) == Wrap(y)
  {
    var k := (x - y) / WORD;
    assert x - y == k * WORD;
    var a, b := x + 0x8000_0000, y + 0x8000_0000;
    assert a == b + k * WORD;
    ModShift(b, k);
  }

  lemma ModShift(b: int, k: int)
    ensures (b + k * WORD) % WORD == b % WORD
  {
    var q, r := b / WORD, b % WORD;
    assert b + k * WORD == (q + k) * WORD + r;
    DivModUniqueInt(b + k * WORD, q + k, r);
  }

  lemma DivModUniqueInt(x: int, q: int, r: int)
    requires 0 <= r < WORD && x == q * WORD + r
    ensures x % WORD == r
  {
    var q', r' := x / WORD, x % WORD;
    assert (q - q') * WORD == r' - r;
  }

  /** Wrapping after every step is wrapping once at the end. */
  lemma WrapThenAdd(x: int, y: int)
    ensures Wrap(Wrap(x) + y) == Wrap(x + y)
  {
    var w := Wrap(x);
    assert (w + y) - (x + y) == w - x;
    WrapCongruent(w + y, x + y);
  }

  /** `add(a, b)`: the `i32` sum, equal to `a + b` whenever that fits. */
  function Add(a: i32, b: i32): (r: i32)
    ensures (r - (a + b)) % WORD == 0
    ensures -0x8000_0000 <= a + b < 0x8000_0000 ==> r == a + b
  {
    Wrap(a + b)
  }

  lemma AddCommutative(a: i32, b: i32)
    ensures Add(a, b) == Add(b, a)
  {
  }

  /** The calls that change the counter. */
  datatype CounterCall = Incr | Decr

  /** The counter after one call (`self.count += 1` or `self.count -= 1`):
      one more or one less, except that incrementing `i32::MAX` gives
      `i32::MIN` and decrementing `i32::MIN` gives `i32::MAX`. */
  function Step(count: i32, call: CounterCall): (r: i32)
    ensures call == Incr ==> r == if count == 0x7fff_ffff then -0x8000_0000 else count + 1
    ensures call == Decr ==> r == if count == -0x8000_0000 then 0x7fff_ffff else count - 1
  {
    match call
    case Incr => Wrap(count + 1)
    case Decr => Wrap(count - 1)
  }

  /** The counter after a session's calls, made one after another. */
  function Run(count: i32, calls: seq<CounterCall>): i32
    decreases |calls|
  {
    if calls == [] then count else Run(Step(count, calls[0]), calls[1..])
  }

  /** Increments minus decrements. */
  function NetDelta(calls: seq<CounterCall>): int
  {
    multiset(calls)[Incr] as int - multiset(calls)[Decr] as int
  }

  /** No call is lost: a session leaves the counter at its start value plus
      the net number of increments, wrapped. */
  lemma {:induction false} RunIsNetDelta(count: i32, calls: seq<CounterCall>)
    ensures Run(count, calls) == Wrap(count + NetDelta(calls))
    decreases |calls|
  {
    if calls != [] {
      var next := Step(count, calls[0]);
      RunIsNetDelta(next, calls[1..]);
      assert calls == [calls[0]] + calls[1..];
      assert multiset(calls) == multiset{calls[0]} + multiset(calls[1..]);
      var d := if calls[0] == Incr then 1 else -1;
      assert NetDelta(calls) == d + NetDelta(calls[1..]);
      WrapThenAdd(count + d, NetDelta(calls[1..]));
    }
  }

  /** As many decrements as increments, in any order, restore the counter. */
  lemma BalancedRunRestores(count: i32, calls: seq<CounterCall>)
    requires multiset(calls)[Incr] == multiset(calls)[Decr]
    ensures Run(count, calls) == count
  {
    RunIsNetDelta(count, calls);
  }

  /** An increment followed by a decrement restores the counter, at the
      wrap-around point too. */
  lemma IncrThenDecr(count: i32)
    ensures Step(Step(count, Incr), Decr) == count
  {
    WrapThenAdd(count + 1, -1);
  }

  /** The tool object: its only state is the counter. */
  class CombinedTool {

    var count: i32

    /** `CombinedTool { count: 0 }`, the instance a session starts with. */
    constructor ()
      ensures count == 0
    {
      count := 0;
    }

    /** `increment`: `count += 1`, then the new value. */
    method Increment() returns (value: i32)
      modifies this
      ensures count == Step(old(count), Incr)
      ensures value == count
    {
      count := Wrap(count + 1);
      value := count;
    }

    /** `decrement`: `count -= 1`, then the new value. */
    method Decrement() returns (value: i32)
      modifies this
      ensures count == Step(old(count), Decr)
      ensures value == count
    {
      count := Wrap(count - 1);
      value := count;
    }

    /** `get_value`: the counter, read without changing anything. */
    method GetValue() returns (value: i32)
      ensures value == count
    {
      value := count;
    }
  }

  /** A caller's view: `increment` then `decrement` gives the counter back,
      and `get_value` then reports the original value. */
  method IncrementThenDecrement(tool: CombinedTool) returns (value: i32)
    modifies tool
    ensures tool.count == old(tool.count)
    ensures value == old(tool.count)
  {
    var up := tool.Increment();
    var down := tool.Decrement();
    IncrThenDecr(old(tool.count));
    value := tool.GetValue();
  }
}
