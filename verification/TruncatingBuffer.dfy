/**
 Output cut off after n elements while everything is counted: the two
 iterator_buffer forms over fixed_buffer_traits (include/spdlog/fmt/bundled/core.h),
 filled by push_back and append (include/spdlog/fmt/bundled/format.h).
 */
module TruncatingBuffer {

  const BUFFER_SIZE: nat := 256

  function Min(x: nat, y: nat): nat
  {
    if x <= y then x else y
  }

  lemma Extend<T>(p: seq<T>, s: seq<T>, i: nat, n: nat)
    requires i + n <= |s|
    ensures p + s[..i] + s[i..i + n] == p + s[..i + n]
  {}

  /** Writes through an output iterator, one full buffer at a time. */
  class IteratorBuffer<T(0)> {
    ghost var pushed: seq<T>
    const limit: nat
    var count: nat
    var size: nat
    const data: array<T>
    var out: seq<T>  // what the iterator received

    ghost predicate Valid()
      reads this, data
    {
      && data.Length == BUFFER_SIZE && size <= BUFFER_SIZE
      && count + size == |pushed|
      && data[..size] == pushed[count..]
      && out == pushed[..Min(limit, count)]
    }

    constructor (n: nat)
      ensures Valid() && fresh(data) && limit == n && pushed == []
    {
      limit, count, size, out, pushed := n, 0, 0, [], [];
      data := new T[BUFFER_SIZE];
    }

    /** fixed_buffer_traits::limit: how many of the next elements still fit. */
    method Limit(n: nat) returns (r: nat)
      modifies `count
      ensures count == old(count) + n
      ensures r == Min(limit, count) - Min(limit, old(count))
    {
      var room := if limit > count then limit - count else 0;
      count := count + n;
      r := if n < room then n else room;
    }

    method Flush()
      requires Valid()
      modifies `count, `size, `out
      ensures Valid() && size == 0 && count == old(count) + old(size)
    {
      var n := size;
      size := 0;
      var r := Limit(n);
      out := out + data[..r];
      assert data[..n][..r] == data[..r];
      assert out == pushed[..Min(limit, count)];
    }

    /** buffer::try_reserve and grow: flushes a full buffer. */
    method TryReserve(capacity: nat)
      requires Valid()
      modifies `count, `size, `out
      ensures Valid() && count + size == old(count + size)
      ensures capacity > old(size) ==> size < BUFFER_SIZE
    {
      if capacity > BUFFER_SIZE && size == BUFFER_SIZE {
        Flush();
      }
    }

    method PushBack(x: T)
      requires Valid()
      modifies this, data
      ensures Valid() && pushed == old(pushed) + [x]
    {
      TryReserve(size + 1);
      data[size] := x;
      size := size + 1;
      pushed := pushed + [x];
      assert data[..size] == data[..size - 1] + [x];
    }

    method Append(s: seq<T>)
      requires Valid()
      modifies this, data
      ensures Valid() && pushed == old(pushed) + s
    {
      hide Valid;
      var i := 0;
      while i != |s|
        invariant 0 <= i <= |s| && Valid()
        invariant pushed == old(pushed) + s[..i]
        decreases |s| - i
      {
        var n := |s| - i;
        TryReserve(size + n);
        if BUFFER_SIZE - size < n {
          n := BUFFER_SIZE - size;
        }
        Extend(old(pushed), s, i, n);
        CopyIn(s[i..i + n]);
        i := i + n;
      }
      assert s[..i] == s;
    }

    method CopyIn(part: seq<T>)
      requires Valid() && size + |part| <= BUFFER_SIZE
      modifies `size, `pushed, data
      ensures Valid() && pushed == old(pushed) + part
    {
      forall k | 0 <= k < |part| {
        data[size + k] := part[k];
      }
      assert data[..size + |part|] == pushed[count..] + part;
      size := size + |part|;
      pushed := pushed + part;
    }

    /** out(): everything delivered so far, which is the first n elements. */
    method Out() returns (r: seq<T>)
      requires Valid()
      modifies `count, `size, `out
      ensures Valid() && r == out == pushed[..Min(limit, |pushed|)]
    {
      Flush();
      r := out;
    }

    /** count(): the untruncated total. */
    method Count() returns (n: nat)
      requires Valid()
      ensures n == |pushed|
    {
      n := count + size;
    }
  }

  /**
   Writes straight into the caller's memory while it lasts, then into scratch
   that is thrown away.
   */
  class PointerBuffer<T(0)> {
    ghost var pushed: seq<T>
    ghost var cut: nat          // how many elements had been pushed at the first flush
    const limit: nat
    var count: nat
    var size: nat
    var direct: bool            // data() == out_: the buffer is the caller's memory
    var outPos: nat             // out_, as an index into the caller's memory
    const dest: array<T>
    const scratch: array<T>

    ghost predicate Valid()
      reads this, dest, scratch
    {
      && dest != scratch && scratch.Length == BUFFER_SIZE && Reach(0) <= dest.Length
      && count + size == |pushed|
      && if direct then count == 0 && outPos == 0 && size <= limit && dest[..size] == pushed
         else size <= BUFFER_SIZE && scratch[..size] == pushed[count..]
              && cut <= count && outPos == Min(limit, cut) && dest[..outPos] == pushed[..outPos]
    }

    /** How far into the caller's memory the output gets once `more` elements are added. */
    ghost function Reach(more: nat): nat
      reads this
    {
      Min(limit, |pushed| + more)
    }

    /** The caller's memory is what it was, except where output has been delivered. */
    ghost predicate Untouched(before: seq<T>)
      reads this, dest
    {
      |before| == dest.Length && forall k :: Reach(0) <= k < dest.Length ==> dest[k] == before[k]
    }

    function Capacity(): nat
      reads this
    {
      if direct then limit else BUFFER_SIZE
    }

    constructor (out: array<T>, n: nat)
      ensures Valid() && fresh(scratch) && dest == out && limit == n && pushed == [] && direct
    {
      dest, limit, count, size, direct, outPos := out, n, 0, 0, true, 0;
      pushed, cut := [], 0;
      scratch := new T[BUFFER_SIZE];
    }

    method Limit(n: nat) returns (r: nat)
      modifies `count
      ensures count == old(count) + n
      ensures r == Min(limit, count) - Min(limit, old(count))
    {
      var room := if limit > count then limit - count else 0;
      count := count + n;
      r := if n < room then n else room;
    }

    method Flush()
      requires Valid()
      modifies `count, `size, `direct, `outPos, `cut
      ensures Valid() && size == 0 && !direct && count == old(count) + old(size)
      ensures cut == if old(direct) then |pushed| else old(cut)
    {
      var n := Limit(size);
      if direct {
        outPos := outPos + n;
        direct := false;
        cut := count;
      }
      size := 0;
    }

    method TryReserve(capacity: nat)
      requires Valid()
      modifies `count, `size, `direct, `outPos, `cut
      ensures Valid() && count + size == old(count + size)
      ensures capacity > old(size) ==> size < Capacity()
      ensures old(direct) && !direct ==> cut == |pushed| == limit
      ensures old(direct) == direct ==> cut == old(cut)
      ensures !old(direct) ==> !direct
    {
      if capacity > Capacity() && size == Capacity() {
        Flush();
      }
    }

    method PushBack(x: T)
      requires Valid() && Reach(1) <= dest.Length
      modifies this, dest, scratch
      ensures Valid() && pushed == old(pushed) + [x]
      ensures Untouched(old(dest[..]))
      ensures !direct ==> cut == if old(direct) then limit else old(cut)
      ensures !old(direct) ==> !direct
    {
      hide Valid;
      TryReserve(size + 1);
      Store(x);
    }

    method Store(x: T)
      requires Valid() && size < Capacity() && Reach(1) <= dest.Length
      modifies `size, `pushed, dest, scratch
      ensures Valid() && pushed == old(pushed) + [x]
      ensures Untouched(old(dest[..]))
    {
      ghost var was := pushed;
      if direct {
        dest[size] := x;
        assert dest[..size + 1] == was + [x];
      } else {
        scratch[size] := x;
        assert scratch[..size + 1] == was[count..] + [x];
        assert was[count..] + [x] == (was + [x])[count..];
      }
      size := size + 1;
      pushed := pushed + [x];
    }

    method Append(s: seq<T>)
      requires Valid() && Reach(|s|) <= dest.Length
      modifies this, dest, scratch
      ensures Valid() && pushed == old(pushed) + s
      ensures Untouched(old(dest[..]))
      ensures !direct ==> cut == if old(direct) then limit else old(cut)
      ensures !old(direct) ==> !direct
    {
      hide Valid, Untouched;
      ghost var before := dest[..];
      UntouchedStart();
      var i := 0;
      while i != |s|
        invariant 0 <= i <= |s| && Valid() && Reach(|s| - i) <= dest.Length
        invariant pushed == old(pushed) + s[..i]
        invariant Untouched(before)
        invariant !direct ==> cut == if old(direct) then limit else old(cut)
        invariant !old(direct) ==> !direct
        decreases |s| - i
      {
        var next := AppendPart(s, i, before);
        Extend(old(pushed), s, i, next - i);
        i := next;
      }
      assert s[..i] == s;
    }

    lemma UntouchedStart()
      ensures Untouched(dest[..])
    {}

    /** One round of append: as much of s[i..] as the buffer has room for. */
    method AppendPart(s: seq<T>, i: nat, ghost before: seq<T>) returns (next: nat)
      requires Valid() && i < |s| && Reach(|s| - i) <= dest.Length && Untouched(before)
      modifies this, dest, scratch
      ensures Valid() && i < next <= |s| && Reach(|s| - next) <= dest.Length && Untouched(before)
      ensures pushed == old(pushed) + s[i..next]
      ensures !direct ==> cut == if old(direct) then limit else old(cut)
      ensures !old(direct) ==> !direct
    {
      hide Valid;
      var n := |s| - i;
      TryReserve(size + n);
      if Capacity() - size < n {
        n := Capacity() - size;
      }
      CopyIn(s[i..i + n]);
      next := i + n;
    }

    method CopyIn(part: seq<T>)
      requires Valid() && size + |part| <= Capacity() && Reach(|part|) <= dest.Length
      modifies `size, `pushed, dest, scratch
      ensures Valid() && pushed == old(pushed) + part
      ensures Untouched(old(dest[..]))
    {
      ghost var was := pushed;
      if direct {
        forall k | 0 <= k < |part| {
          dest[size + k] := part[k];
        }
        assert dest[..size] == was;
        assert dest[..size + |part|] == was + part;
      } else {
        forall k | 0 <= k < |part| {
          scratch[size + k] := part[k];
        }
        assert scratch[..size] == was[count..];
        assert scratch[..size + |part|] == was[count..] + part;
        assert was[count..] + part == (was + part)[count..];
      }
      size := size + |part|;
      pushed := was + part;
    }

    /**
     out(): one past the last element delivered. That is the first n elements,
     unless an earlier out() had already cut the output short of n.
     */
    method Out() returns (end: nat)
      requires Valid()
      modifies `count, `size, `direct, `outPos, `cut
      ensures Valid() && !direct && end == Min(limit, cut) && end <= |pushed|
      ensures dest[..end] == pushed[..end]
      ensures cut == if old(direct) then |pushed| else old(cut)
      ensures end == Min(limit, |pushed|) <==> cut >= limit || cut == |pushed|
    {
      Flush();
      end := outPos;
    }

    method Count() returns (n: nat)
      requires Valid()
      ensures n == |pushed|
    {
      n := count + size;
    }
  }

  /**
   format_to_n: everything is pushed, then out() and count() are read once. The
   memory need not have room for n elements if the output is shorter.
   */
  method FormatToN<T(0)>(out: array<T>, n: nat, pieces: seq<seq<T>>) returns (end: nat, total: nat)
    requires Min(n, |Concat(pieces)|) <= out.Length
    modifies out
    ensures total == |Concat(pieces)| && end == Min(n, total)
    ensures out[..end] == Concat(pieces)[..end] && out[end..] == old(out[end..])
  {
    var buf := new PointerBuffer(out, n);
    var i := 0;
    while i < |pieces|
      invariant 0 <= i <= |pieces| && buf.Valid() && buf.dest == out && buf.limit == n
      invariant fresh(buf) && fresh(buf.scratch)
      invariant buf.pushed == Concat(pieces[..i])
      invariant !buf.direct ==> buf.cut == n
      invariant buf.Untouched(old(out[..]))
    {
      assert pieces[..i + 1][..i] == pieces[..i];
      ConcatGrows(pieces, i + 1);
      buf.Append(pieces[i]);
      i := i + 1;
    }
    assert pieces[..i] == pieces;
    end := buf.Out();
    total := buf.Count();
  }

  /**
   Reading out() twice: what was pushed in between is lost, although there is
   room for it, exactly if the first part left room and the second is not empty.
   */
  method EarlyOut<T(0)>(out: array<T>, n: nat, early: seq<T>, late: seq<T>) returns (end: nat, total: nat)
    requires Min(n, |early| + |late|) <= out.Length
    modifies out
    ensures total == |early| + |late|
    ensures end == Min(n, |early|) && out[..end] == early[..end]
    ensures end < Min(n, total) <==> |early| < n && late != []
  {
    hide PointerBuffer.Valid;
    var buf := new PointerBuffer(out, n);
    buf.Append(early);
    assert buf.pushed == early;
    var first := buf.Out();
    buf.Append(late);
    assert buf.pushed == early + late && Min(n, buf.cut) == Min(n, |early|);
    end := buf.Out();
    assert (early + late)[..end] == early[..end];
    total := buf.Count();
  }

  lemma {:induction false} ConcatGrows<T>(pieces: seq<seq<T>>, i: nat)
    requires i <= |pieces|
    ensures |Concat(pieces[..i])| <= |Concat(pieces)|
    decreases |pieces| - i
  {
    if i < |pieces| {
      assert pieces[..i + 1][..i] == pieces[..i];
      ConcatGrows(pieces, i + 1);
    } else {
      assert pieces[..i] == pieces;
    }
  }

  ghost function Concat<T>(pieces: seq<seq<T>>): seq<T>
  {
    if pieces == [] then [] else Concat(pieces[..|pieces| - 1]) + pieces[|pieces| - 1]
  }
}
