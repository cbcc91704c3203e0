/**
  The row literal `MatrixRow<Len>`: a fixed-length run of values that seeds
  one row of a matrix during construction and is read back through `Data`.
 */
module MatrixRows {

  /** A row literal of `len` values. */
  datatype MatrixRow = MatrixRow(len: nat, mem: seq<int>)

  /** The row's length is non-zero and its storage holds exactly `len` values. */
  predicate Valid(row: MatrixRow) {
    row.len != 0 && |row.mem| == row.len
  }

  /** The variadic `Init`: stores `args[0]` at `pos`, then the rest from
      `pos + 1` on, until no argument is left. */
  function InitFrom(mem: seq<int>, pos: nat, args: seq<int>): (r: seq<int>)
    requires pos + |args| <= |mem|
    ensures |r| == |mem|
    ensures forall i :: 0 <= i < pos ==> r[i] == mem[i]
    ensures forall i :: 0 <= i < |args| ==> r[pos + i] == args[i]
    ensures forall i :: pos + |args| <= i < |mem| ==> r[i] == mem[i]
    decreases |args|
  {
    if |args| == 0 then mem
    else InitFrom(mem[pos := args[0]], pos + 1, args[1..])
  }

  /** The row constructor: exactly `len` arguments, `len` non-zero, copied
      positionally. The storage starts as zeros, which `InitFrom` overwrites
      in full. */
  function NewRow(len: nat, args: seq<int>): (row: MatrixRow)
    requires len != 0 && |args| == len
    ensures Valid(row) && row.len == len
    ensures Data(row) == args
  {
    var mem := InitFrom(seq(len, _ => 0), 0, args);
    assert forall i :: 0 <= i < len ==> mem[0 + i] == args[i];
    MatrixRow(len, mem)
  }

  /** The read-only view of the row's storage. */
  function Data(row: MatrixRow): seq<int> {
    row.mem
  }
}
