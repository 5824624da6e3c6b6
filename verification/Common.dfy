/** Vocabulary shared by every part of the model. */
module Common {

  datatype Option<+T> = None | Some(value: T)

  datatype Result<+T, +E> = Ok(value: T) | Err(error: E)

  /** One byte of a file, a path or a class name. */
  type Byte = b: int | 0 <= b < 256

  datatype Ordering = Less | Equal | Greater {
    function Reverse(): Ordering {
      match this
      case Less => Greater
      case Equal => Equal
      case Greater => Less
    }
  }

  function CompareInt(x: int, y: int): Ordering {
    if x < y then Less else if x == y then Equal else Greater
  }

  /** Lexicographic comparison; a proper prefix comes first. */
  function LexCompare(p: seq<int>, q: seq<int>): Ordering {
    if p == [] then (if q == [] then Equal else Less)
    else if q == [] then Greater
    else if p[0] != q[0] then CompareInt(p[0], q[0])
    else LexCompare(p[1..], q[1..])
  }

  lemma {:induction false} LexReverse(p: seq<int>, q: seq<int>)
    ensures LexCompare(q, p) == LexCompare(p, q).Reverse()
  {
    if p != [] && q != [] && p[0] == q[0] {
      LexReverse(p[1..], q[1..]);
    }
  }

  lemma {:induction false} LexEqual(p: seq<int>, q: seq<int>)
    ensures LexCompare(p, q) == Equal <==> p == q
  {
    if p != [] && q != [] && p[0] == q[0] {
      LexEqual(p[1..], q[1..]);
      assert p == [p[0]] + p[1..] && q == [q[0]] + q[1..];
    }
  }

  lemma {:induction false} LexTransitive(p: seq<int>, q: seq<int>, r: seq<int>)
    requires LexCompare(p, q) != Greater && LexCompare(q, r) != Greater
    ensures LexCompare(p, r) != Greater
    ensures LexCompare(p, q) == Less || LexCompare(q, r) == Less ==> LexCompare(p, r) == Less
  {
    if p != [] && q != [] && r != [] && p[0] == q[0] && q[0] == r[0] {
      LexTransitive(p[1..], q[1..], r[1..]);
    }
  }

  lemma {:induction false} LexCommonPrefix(c: seq<int>, p: seq<int>, q: seq<int>)
    ensures LexCompare(c + p, c + q) == LexCompare(p, q)
  {
    if c == [] {
      assert c + p == p && c + q == q;
    } else {
      assert (c + p)[1..] == c[1..] + p && (c + q)[1..] == c[1..] + q;
      LexCommonPrefix(c[1..], p, q);
    }
  }

  lemma LexStep(x: int, p: seq<int>, y: int, q: seq<int>)
    ensures LexCompare([x] + p, [y] + q) == if x != y then CompareInt(x, y) else LexCompare(p, q)
  {
    assert ([x] + p)[1..] == p && ([y] + q)[1..] == q;
  }

  /** Concatenation is associative. */
  lemma Glue<T>(a: seq<T>, b: seq<T>, c: seq<T>)
    ensures (a + b) + c == a + (b + c)
  {
  }

  /** Of two paths, given as components, one lies in the other. */
  predicate Nested(a: seq<string>, b: seq<string>) { a <= b || b <= a }
}
