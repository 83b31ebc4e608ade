/** The start-up sweep that signs audit rows a crash left unsigned, oldest first and in bounded batches. */
module AuditSweep {
  import opened Common

  /** A row's columns and its signature, if it has one; `sign` is a parameter of everything below. */
  datatype Row<C, S> = Row(cols: C, signature: Option<S>)

  function Signed<C, S>(r: Row<C, S>, sign: C -> S): Row<C, S> {
    r.(signature := Some(sign(r.cols)))
  }

  function Unsigned<C, S>(rows: seq<Row<C, S>>): nat {
    if rows == [] then 0 else (if rows[0].signature.None? then 1 else 0) + Unsigned(rows[1..])
  }

  /** Rows, oldest first, with the first `n` unsigned ones signed. */
  function SignFirst<C, S>(rows: seq<Row<C, S>>, n: int, sign: C -> S): (r: seq<Row<C, S>>)
    ensures |r| == |rows|
  {
    if rows == [] || n <= 0 then rows
    else if rows[0].signature.None? then [Signed(rows[0], sign)] + SignFirst(rows[1..], n - 1, sign)
    else [rows[0]] + SignFirst(rows[1..], n, sign)
  }

  /** Positions of the oldest `n` unsigned rows: `WHERE signature IS NULL ORDER BY created_at LIMIT n`. */
  function SelectUnsigned<C, S>(rows: seq<Row<C, S>>, n: int, offset: nat): (batch: seq<nat>)
    ensures forall j :: 0 <= j < |batch| ==> offset <= batch[j] < offset + |rows|
  {
    if rows == [] || n <= 0 then []
    else if rows[0].signature.None? then [offset] + SelectUnsigned(rows[1..], n - 1, offset + 1)
    else SelectUnsigned(rows[1..], n, offset + 1)
  }

  function Min(a: int, b: int): int {
    if a < b then a else b
  }

  class AuditTable<C, S> {
    var rows: seq<Row<C, S>>

    constructor (initial: seq<Row<C, S>>)
      ensures rows == initial
    {
      rows := initial;
    }

    /** Batches of at most 100 until nothing is unsigned or the limit is reached. */
    method ResignUnsigned(maxRows: int, sign: C -> S) returns (resigned: int)
      modifies this
      ensures rows == SignFirst(old(rows), maxRows, sign)
      ensures resigned == if maxRows <= 0 then 0 else Min(maxRows, Unsigned(old(rows)))
    {
      resigned := 0;
      while resigned < maxRows
        invariant 0 <= resigned && (resigned <= maxRows || resigned == 0) && resigned <= Unsigned(old(rows))
        invariant rows == SignFirst(old(rows), resigned, sign)
        decreases maxRows - resigned
      {
        var batch := SelectUnsigned(rows, Min(100, maxRows - resigned), 0);
        UnsignedLeft(old(rows), resigned, sign);
        BatchSize(rows, Min(100, maxRows - resigned), 0);
        if batch == [] {
          Saturates(old(rows), resigned, maxRows, sign);
          return;
        }
        ghost var before, start := rows, resigned;
        for j := 0 to |batch|
          invariant resigned == start + j && |rows| == |before|
          invariant rows == SignFirst(before, j, sign)
        {
          SignNext(before, j, Min(100, maxRows - start), 0, sign);
          rows := rows[batch[j] := Signed(rows[batch[j]], sign)];
          resigned := resigned + 1;
        }
        SignTwice(old(rows), start, |batch|, sign);
      }
    }
  }

  lemma {:induction false} UnsignedLeft<C, S>(rows: seq<Row<C, S>>, n: nat, sign: C -> S)
    requires n <= Unsigned(rows)
    ensures Unsigned(SignFirst(rows, n, sign)) == Unsigned(rows) - n
  {
    if rows != [] && n > 0 {
      UnsignedLeft(rows[1..], if rows[0].signature.None? then n - 1 else n, sign);
    }
  }

  lemma {:induction false} BatchSize<C, S>(rows: seq<Row<C, S>>, n: nat, offset: nat)
    ensures |SelectUnsigned(rows, n, offset)| == Min(n, Unsigned(rows))
  {
    if rows != [] && n > 0 {
      BatchSize(rows[1..], if rows[0].signature.None? then n - 1 else n, offset + 1);
    }
  }

  lemma {:induction false} Saturates<C, S>(rows: seq<Row<C, S>>, n: int, more: int, sign: C -> S)
    requires Unsigned(rows) <= n <= more
    ensures SignFirst(rows, n, sign) == SignFirst(rows, more, sign)
  {
    if n == 0 {
      NothingUnsigned(rows, more, sign);
    } else if rows != [] {
      var taken := if rows[0].signature.None? then 1 else 0;
      Saturates(rows[1..], n - taken, more - taken, sign);
    }
  }

  lemma {:induction false} NothingUnsigned<C, S>(rows: seq<Row<C, S>>, n: int, sign: C -> S)
    requires Unsigned(rows) == 0
    ensures SignFirst(rows, n, sign) == rows
  {
    if rows != [] { NothingUnsigned(rows[1..], n, sign); }
  }

  lemma SignFirstCons<C, S>(rows: seq<Row<C, S>>, j: nat, sign: C -> S)
    requires rows != []
    ensures rows[0].signature.Some? ==> SignFirst(rows, j, sign) == [rows[0]] + SignFirst(rows[1..], j, sign)
    ensures rows[0].signature.None? && j > 0 ==>
              SignFirst(rows, j, sign) == [Signed(rows[0], sign)] + SignFirst(rows[1..], j - 1, sign)
  {
  }

  lemma UpdateCons<T>(x: T, rest: seq<T>, i: nat, v: T)
    requires i < |rest|
    ensures ([x] + rest)[i + 1] == rest[i] && ([x] + rest)[i + 1 := v] == [x] + rest[i := v]
  {
  }

  /** Signing the `j`-th selected row makes the table with `j` rows signed the one with `j + 1`. */
  ghost predicate SignsNext<C, S>(rows: seq<Row<C, S>>, j: nat, i: int, sign: C -> S) {
    && 0 <= i < |rows| && SignFirst(rows, j, sign)[i] == rows[i]
    && SignFirst(rows, j, sign)[i := Signed(rows[i], sign)] == SignFirst(rows, j + 1, sign)
  }

  lemma SignsNextSkipping<C, S>(rows: seq<Row<C, S>>, j: nat, i: int, sign: C -> S)
    requires rows != [] && rows[0].signature.Some? && SignsNext(rows[1..], j, i, sign)
    ensures SignsNext(rows, j, i + 1, sign)
  {
    SignFirstCons(rows, j, sign);
    SignFirstCons(rows, j + 1, sign);
    UpdateCons(rows[0], SignFirst(rows[1..], j, sign), i, Signed(rows[1..][i], sign));
  }

  lemma SignsNextLater<C, S>(rows: seq<Row<C, S>>, j: nat, i: int, sign: C -> S)
    requires j > 0 && rows != [] && rows[0].signature.None? && SignsNext(rows[1..], j - 1, i, sign)
    ensures SignsNext(rows, j, i + 1, sign)
  {
    SignFirstCons(rows, j, sign);
    SignFirstCons(rows, j + 1, sign);
    UpdateCons(Signed(rows[0], sign), SignFirst(rows[1..], j - 1, sign), i, Signed(rows[1..][i], sign));
  }

  lemma SignsNextNow<C, S>(rows: seq<Row<C, S>>, sign: C -> S)
    requires rows != [] && rows[0].signature.None?
    ensures SignsNext(rows, 0, 0, sign)
  {
    assert rows[0 := Signed(rows[0], sign)] == [Signed(rows[0], sign)] + rows[1..];
  }

  lemma {:induction false} SignNext<C, S>(rows: seq<Row<C, S>>, j: nat, n: int, offset: nat, sign: C -> S)
    requires j < |SelectUnsigned(rows, n, offset)|
    ensures SignsNext(rows, j, SelectUnsigned(rows, n, offset)[j] - offset, sign)
  {
    if rows[0].signature.Some? {
      SignNext(rows[1..], j, n, offset + 1, sign);
      SignsNextSkipping(rows, j, SelectUnsigned(rows[1..], n, offset + 1)[j] - (offset + 1), sign);
    } else if j > 0 {
      SignNext(rows[1..], j - 1, n - 1, offset + 1, sign);
      SignsNextLater(rows, j, SelectUnsigned(rows[1..], n - 1, offset + 1)[j - 1] - (offset + 1), sign);
    } else {
      SignsNextNow(rows, sign);
    }
  }

  lemma {:induction false} SignTwice<C, S>(rows: seq<Row<C, S>>, n: nat, more: nat, sign: C -> S)
    ensures SignFirst(SignFirst(rows, n, sign), more, sign) == SignFirst(rows, n + more, sign)
  {
    if rows != [] && n > 0 {
      SignTwice(rows[1..], if rows[0].signature.None? then n - 1 else n, more, sign);
    }
  }

  /** The sweep signs exactly the unsigned rows with fewer than `n` older unsigned rows, and no signed one. */
  lemma {:induction false} SweepSignsOldest<C, S>(rows: seq<Row<C, S>>, n: int, sign: C -> S, i: nat)
    requires i < |rows|
    ensures SignFirst(rows, n, sign)[i]
         == if rows[i].signature.None? && Unsigned(rows[..i]) < n then Signed(rows[i], sign) else rows[i]
  {
    if n > 0 && i > 0 {
      assert rows[..i][1..] == rows[1..][..i - 1];
      SweepSignsOldest(rows[1..], if rows[0].signature.None? then n - 1 else n, sign, i - 1);
    }
  }
}
