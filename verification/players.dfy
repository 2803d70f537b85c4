/** The `Player` unit: a named glyph that walks across the screen at a fixed speed. */
module Players {
  import opened Geometry

  /** A player unit. Its font handle in `Main.cpp` is presentation and is left out;
      `getPos` is the `pos` field. */
  datatype Player = Player(name: string, speed: real, pos: Vec2)

  /** One frame of movement: the unit moves by its speed along x and never along y. */
  function Update(p: Player): (r: Player)
    ensures r.name == p.name && r.speed == p.speed
    ensures r.pos.x == p.pos.x + p.speed
    ensures r.pos.y == p.pos.y
  {
    p.(pos := MoveBy(p.pos, p.speed, 0.0))
  }

  /** `n` successive frames of movement. */
  function UpdateN(p: Player, n: nat): Player
    decreases n
  {
    if n == 0 then p else UpdateN(Update(p), n - 1)
  }

  /** After `n` frames a unit has walked `n * speed` to the right and kept its row,
      name and speed. */
  lemma {:induction false} UpdateNPosition(p: Player, n: nat)
    ensures UpdateN(p, n) == Player(p.name, p.speed, Vec2(p.pos.x + n as real * p.speed, p.pos.y))
    decreases n
  {
    if n > 0 {
      UpdateNPosition(Update(p), n - 1);
      assert (n - 1) as real * p.speed + p.speed == n as real * p.speed;
    }
  }

  /** Moves every unit of the list by one frame, keeping the list's order and length. */
  function MoveAll(ps: seq<Player>): (r: seq<Player>)
    ensures |r| == |ps|
    ensures forall k :: 0 <= k < |ps| ==> r[k] == Update(ps[k])
  {
    if |ps| == 0 then [] else [Update(ps[0])] + MoveAll(ps[1..])
  }

  /** Moving a list distributes over appending to it. */
  lemma {:induction false} MoveAllAppend(ps: seq<Player>, qs: seq<Player>)
    ensures MoveAll(ps + qs) == MoveAll(ps) + MoveAll(qs)
  {
    var l, r := MoveAll(ps + qs), MoveAll(ps) + MoveAll(qs);
    assert |l| == |r|;
    forall k | 0 <= k < |l|
      ensures l[k] == r[k]
    {
      if k < |ps| {
        assert (ps + qs)[k] == ps[k];
      } else {
        assert (ps + qs)[k] == qs[k - |ps|];
      }
    }
  }
}
