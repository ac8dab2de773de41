/** Small types shared by every component. */
module Common {

  datatype Option<+T> = None | Some(value: T)

  datatype Result<+T, +E> = Ok(value: T) | Err(error: E)

  function Max(a: int, b: int): int {
    if a < b then b else a
  }

  function Min(a: int, b: int): int {
    if a < b then a else b
  }

  function SetOf<T(==)>(xs: seq<T>): set<T> {
    set x | x in xs
  }

  /** Overwriting the first element after a prefix. */
  lemma ReplaceNext<T>(all: seq<T>, done: seq<T>, old': seq<T>, x: T)
    requires |done| < |old'| && all == done + old'[|done|..]
    ensures all[|done|] == old'[|done|]
    ensures all[|done| := x] == (done + [x]) + old'[|done| + 1..]
  {
  }

  /** Code-point order on strings, as the database and the language compare them. */
  predicate StringLess(a: string, b: string) {
    if b == [] then false
    else if a == [] then true
    else a[0] < b[0] || (a[0] == b[0] && StringLess(a[1..], b[1..]))
  }

  /** The first `n` parts, one after another. */
  function Flat<T>(parts: seq<seq<T>>, n: nat): seq<T>
    requires n <= |parts|
  {
    if n == 0 then [] else Flat(parts, n - 1) + parts[n - 1]
  }

  lemma {:induction false} InFlat<T>(parts: seq<seq<T>>, n: nat, c: nat, x: T)
    requires c < n <= |parts| && x in parts[c]
    ensures x in Flat(parts, n)
  {
    if c == n - 1 {
    } else {
      InFlat(parts, n - 1, c, x);
    }
  }

  lemma {:induction false} PartOf<T>(parts: seq<seq<T>>, n: nat, x: T) returns (c: nat)
    requires n <= |parts| && x in Flat(parts, n)
    ensures c < n && x in parts[c]
  {
    if x in parts[n - 1] {
      c := n - 1;
    } else {
      c := PartOf(parts, n - 1, x);
    }
  }
}
