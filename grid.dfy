/** The generic grid of src/bin/utils/map.rs: a position type with
    componentwise arithmetic, and a map of cells stored row by row
    (`data[y][x]`) together with its size. */
module Grid {
  import opened Common
  import Text

  datatype Pos = Pos(x: int, y: int)

  /** `impl Add for Pos`. */
  function Add(p: Pos, q: Pos): Pos
  {
    Pos(p.x + q.x, p.y + q.y)
  }

  /** `impl Mul<i64> for Pos`. */
  function Mul(p: Pos, k: int): Pos
  {
    Pos(p.x * k, p.y * k)
  }

  /** `impl Rem for Pos` (and `RemAssign`, which stores the same value in place):
      `rem_euclid` on each coordinate; a zero modulus panics. */
  function Rem(p: Pos, m: Pos): (r: Pos)
    requires m.x != 0 && m.y != 0
    ensures 0 <= r.x < if m.x > 0 then m.x else -m.x
    ensures 0 <= r.y < if m.y > 0 then m.y else -m.y
    ensures p.x - r.x == m.x * (p.x / m.x) && p.y - r.y == m.y * (p.y / m.y)
  {
    Pos(p.x % m.x, p.y % m.y)
  }

  lemma AddCommutes(p: Pos, q: Pos)
    ensures Add(p, q) == Add(q, p)
  {
  }

  /** Multiplying by a scalar distributes over the addition of positions. */
  lemma MulDistributes(p: Pos, q: Pos, k: int)
    ensures Mul(Add(p, q), k) == Add(Mul(p, k), Mul(q, k))
  {
    assert (p.x + q.x) * k == p.x * k + q.x * k;
    assert (p.y + q.y) * k == p.y * k + q.y * k;
  }

  /** Reducing twice is reducing once, and a position already inside the modulus box
      is left where it is. */
  lemma RemIdempotent(p: Pos, m: Pos)
    requires m.x > 0 && m.y > 0
    ensures Rem(Rem(p, m), m) == Rem(p, m)
    ensures 0 <= p.x < m.x && 0 <= p.y < m.y ==> Rem(p, m) == p
  {
    var r := Rem(p, m);
    ModOfSmall(r.x, m.x);
    ModOfSmall(r.y, m.y);
    if 0 <= p.x < m.x && 0 <= p.y < m.y {
      ModOfSmall(p.x, m.x);
      ModOfSmall(p.y, m.y);
    }
  }

  lemma ModOfSmall(a: int, m: int)
    requires 0 <= a < m
    ensures a % m == a
  {
  }

  /** The four positions `neighbors` tries, in its order: `[-1, 1]` flat-mapped to
      `(x + i, y)` then `(x, y + i)`. */
  function Around(p: Pos): seq<Pos>
  {
    [Pos(p.x - 1, p.y), Pos(p.x, p.y - 1), Pos(p.x + 1, p.y), Pos(p.x, p.y + 1)]
  }

  predicate Adjacent(p: Pos, q: Pos)
  {
    (p.x == q.x && (p.y - q.y == 1 || q.y - p.y == 1)) ||
    (p.y == q.y && (p.x - q.x == 1 || q.x - p.x == 1))
  }

  /** Keeps the elements of `s` that satisfy `keep`, in order (`Iterator::filter`). */
  function Filter<T>(s: seq<T>, keep: T -> bool): (r: seq<T>)
    ensures |r| <= |s|
    ensures forall i :: 0 <= i < |r| ==> r[i] in s && keep(r[i])
    ensures forall i :: 0 <= i < |s| && keep(s[i]) ==> s[i] in r
    ensures Distinct(s) ==> Distinct(r)
  {
    if s == [] then []
    else if keep(s[0]) then [s[0]] + Filter(s[1..], keep)
    else Filter(s[1..], keep)
  }

  datatype Map<T> = Map(size: Pos, data: seq<seq<T>>)
  {
    /** `Map::contains`: note that the x coordinate is compared with the number
        of rows `size.y`, not with the width `size.x`. */
    predicate Contains(p: Pos)
    {
      0 <= p.x < size.y && 0 <= p.y < size.y
    }

    /** `Map::neighbors`: the orthogonal neighbours of `p` that `Contains` accepts. */
    function Neighbors(p: Pos): (r: seq<Pos>)
      ensures |r| <= 4 && Distinct(r)
      ensures forall i :: 0 <= i < |r| ==> Contains(r[i]) && Adjacent(p, r[i])
      ensures forall q :: Adjacent(p, q) && Contains(q) ==> q in r
    {
      forall q | Adjacent(p, q)
        ensures q in Around(p)
      {
        if q.x == p.x - 1 {
          assert q == Around(p)[0];
        } else if q.y == p.y - 1 {
          assert q == Around(p)[1];
        } else if q.x == p.x + 1 {
          assert q == Around(p)[2];
        } else {
          assert q == Around(p)[3];
        }
      }
      Filter(Around(p), (q: Pos) => Contains(q))
    }

    /** The cell `data[p.y][p.x]` exists (what `Index` needs not to panic). */
    predicate InBounds(p: Pos)
    {
      0 <= p.y < |data| && 0 <= p.x < |data[p.y]|
    }

    /** `impl Index<&Pos>`: `data[y][x]`. */
    function Get(p: Pos): T
      requires InBounds(p)
    {
      data[p.y][p.x]
    }

    /** `impl IndexMut<&Pos>` followed by an assignment: only the one cell changes. */
    function Set(p: Pos, v: T): (r: Map<T>)
      requires InBounds(p)
      ensures r.size == size && |r.data| == |data|
      ensures forall y :: 0 <= y < |data| ==> |r.data[y]| == |data[y]|
      ensures r.InBounds(p) && r.Get(p) == v
      ensures forall q :: InBounds(q) && q != p ==> r.InBounds(q) && r.Get(q) == Get(q)
    {
      Map(size, data[p.y := data[p.y][p.x := v]])
    }

    /** Every row holds `size.x` cells and there are `size.y` rows. */
    predicate Rectangular()
    {
      size.y == |data| && size.x >= 0 && forall y :: 0 <= y < |data| ==> |data[y]| == size.x
    }

    /** A rectangular map at least as wide as it is tall, so that every position that
        `Contains` accepts can be indexed. */
    predicate ContainsIsIndexable()
    {
      Rectangular() && size.y <= size.x
    }
  }

  lemma ContainsInBounds<T>(m: Map<T>, p: Pos)
    requires m.ContainsIsIndexable() && m.Contains(p)
    ensures m.InBounds(p)
  {
  }

  /** On a square map `contains` is the exact bounds check ... */
  lemma ContainsExactOnSquare<T>(m: Map<T>, p: Pos)
    requires m.Rectangular() && m.size.x == m.size.y
    ensures m.Contains(p) <==> m.InBounds(p)
  {
  }

  /** ... but on a map wider than tall it rejects cells that exist. */
  lemma ContainsRejectsCellOfWideMap()
    ensures var m := Map(Pos(2, 1), [[false, false]]);
            m.InBounds(Pos(1, 0)) && !m.Contains(Pos(1, 0))
  {
  }

  /** The `char` conversion of `ConvertibleFromChar` accepts every character. */
  function CharFromChar(c: char): Option<char>
  {
    Some(c)
  }

  /** The `u8` conversion of `ConvertibleFromChar`: `to_digit(10)`. */
  function DigitFromChar(c: char): (r: Option<int>)
    ensures r.Some? <==> Text.IsDigit(c)
    ensures r.Some? ==> 0 <= r.value <= 9 && r.value == c as int - '0' as int
  {
    match Text.ToDigit(c)
      case None => None
      case Some(d) => Some(d)
  }

  /** Converts one line, failing on the first character `conv` rejects. */
  function ConvertLine<T>(line: string, conv: char -> Option<T>): (r: Option<seq<T>>)
    ensures r.Some? <==> forall i :: 0 <= i < |line| ==> conv(line[i]).Some?
    ensures r.Some? ==> |r.value| == |line| &&
                        forall i :: 0 <= i < |line| ==> r.value[i] == conv(line[i]).value
  {
    if line == [] then Some([])
    else match conv(line[0])
      case None => None
      case Some(v) =>
        match ConvertLine(line[1..], conv)
          case None => None
          case Some(rest) => Some([v] + rest)
  }

  function ConvertLines<T>(lines: seq<string>, conv: char -> Option<T>): (r: Option<seq<seq<T>>>)
    ensures r.Some? <==> forall y, x :: 0 <= y < |lines| && 0 <= x < |lines[y]| ==> conv(lines[y][x]).Some?
    ensures r.Some? ==> |r.value| == |lines| && forall y :: 0 <= y < |lines| ==>
                          |r.value[y]| == |lines[y]| &&
                          forall x :: 0 <= x < |lines[y]| ==> r.value[y][x] == conv(lines[y][x]).value
  {
    if lines == [] then Some([])
    else match ConvertLine(lines[0], conv)
      case None => None
      case Some(row) =>
        match ConvertLines(lines[1..], conv)
          case None => None
          case Some(rest) => Some([row] + rest)
  }

  /** `Map::from_str`: one row per line of `s`, each character converted; the width is
      the length of the first row. It fails on an unconvertible character and on an
      input without lines. */
  function FromStr<T>(s: string, conv: char -> Option<T>): (r: Option<Map<T>>)
    ensures var lines := Text.Lines(s);
            r.Some? <==> lines != [] &&
                         forall y, x :: 0 <= y < |lines| && 0 <= x < |lines[y]| ==> conv(lines[y][x]).Some?
    ensures r.Some? ==> var lines := Text.Lines(s);
                        && r.value.size == Pos(|lines[0]|, |lines|)
                        && |r.value.data| == |lines|
                        && forall y :: 0 <= y < |lines| ==>
                             |r.value.data[y]| == |lines[y]| &&
                             forall x :: 0 <= x < |lines[y]| ==> r.value.data[y][x] == conv(lines[y][x]).value
  {
    match ConvertLines(Text.Lines(s), conv)
      case None => None
      case Some(data) =>
        if data == [] then None else Some(Map(Pos(|data[0]|, |data|), data))
  }

  /** With the `char` conversion, every input with at least one line parses, and the
      map is exactly the lines. */
  lemma CharMapIsLines(s: string)
    requires s != []
    ensures FromStr(s, CharFromChar).Some?
    ensures FromStr(s, CharFromChar).value.data == Text.Lines(s)
  {
    var lines := Text.Lines(s);
    var data := FromStr(s, CharFromChar).value.data;
    assert |data| == |lines|;
    forall y | 0 <= y < |lines|
      ensures data[y] == lines[y]
    {
      assert |data[y]| == |lines[y]|;
    }
  }
}
