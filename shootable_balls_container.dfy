/**
 * The queue of balls waiting to be fired: balls are registered at the tail,
 * the current ball is the head, a ball is deleted by identity (its first
 * occurrence), and the whole queue can be cleared.
 */
module ShootableBalls {
  import opened Wrappers

  /** An RGBA colour. */
  datatype Color = Color(r: real, g: real, b: real, a: real)

  /** The all-zero colour reported when no ball follows the current one. */
  const Transparent: Color := Color(0.0, 0.0, 0.0, 0.0)

  /** A ball waiting to be fired: an object identity with its colour. */
  class Ball {
    const color: Color

    constructor (color: Color)
      ensures this.color == color
    {
      this.color := color;
    }
  }

  /** The NextBallColorChanged event as a value: the next colour and the balls left behind the current one. */
  datatype NextBall = NextBall(color: Color, remaining: int)

  /**
   * s without its first occurrence of x (s itself when x does not occur),
   * the removal a list performs when asked to remove x.
   */
  function RemoveFirst<T(==)>(s: seq<T>, x: T): (r: seq<T>)
    ensures x in s ==> |r| == |s| - 1
    ensures x !in s ==> r == s
    ensures forall y :: y in r ==> y in s
  {
    if s == [] then []
    else if s[0] == x then s[1..]
    else [s[0]] + RemoveFirst(s[1..], x)
  }

  /** Removing the first occurrence at index i splices out exactly s[i]. */
  lemma {:induction false} RemoveFirstAt<T>(s: seq<T>, x: T, i: int)
    requires 0 <= i < |s| && s[i] == x
    requires forall j :: 0 <= j < i ==> s[j] != x
    ensures RemoveFirst(s, x) == s[..i] + s[i + 1..]
  {
    if i > 0 {
      RemoveFirstAt(s[1..], x, i - 1);
      assert s[1..][..i - 1] == s[1..i];
      assert s[1..][i..] == s[i + 1..];
      assert s[..i] == [s[0]] + s[1..i];
    }
  }

  /** Removal takes away one copy of x, when there is one, and nothing else. */
  lemma {:induction false} RemoveFirstMultiset<T>(s: seq<T>, x: T)
    ensures multiset(RemoveFirst(s, x)) == multiset(s) - multiset{x}
  {
    if s != [] {
      assert s == [s[0]] + s[1..];
      if s[0] != x {
        RemoveFirstMultiset(s[1..], x);
      }
    }
  }

  /** Removing the head's value removes the head. */
  lemma RemoveHead<T>(s: seq<T>)
    requires |s| > 0
    ensures RemoveFirst(s, s[0]) == s[1..]
  {
  }

  /**
   * First in, first out: after x is registered behind s, removing the
   * current ball leaves the rest of s followed by x.
   */
  lemma RegisterThenRemoveHead<T>(s: seq<T>, x: T)
    requires |s| > 0
    ensures RemoveFirst(s + [x], (s + [x])[0]) == s[1..] + [x]
  {
    assert (s + [x])[1..] == s[1..] + [x];
  }

  class ShootableBallsContainer {
    var balls: seq<Ball>

    constructor ()
      ensures balls == []
    {
      balls := [];
    }

    /** The list itself (read-only to callers). */
    method Balls() returns (view: seq<Ball>)
      ensures view == balls
    {
      view := balls;
    }

    /** Appends `instance` at the tail. */
    method RegisterBall(instance: Ball)
      modifies this
      ensures balls == old(balls) + [instance]
    {
      balls := balls + [instance];
    }

    /** Whether there is a current ball to fire. */
    method CanTakeCurrentBall() returns (can: bool)
      ensures can <==> balls != []
    {
      if |balls| <= 0 {
        return false;
      }
      return true;
    }

    /**
     * The current (head) ball, and the NextBallColorChanged report: the
     * colour of the ball behind it, transparent when there is none, and
     * the number of balls behind it.
     */
    method GetCurrentBall() returns (current: Ball, report: NextBall)
      requires balls != []
      ensures current == balls[0]
      ensures report.remaining == |balls| - 1 >= 0
      ensures report.remaining > 0 ==> report.color == balls[1].color
      ensures report.remaining == 0 ==> report.color == Transparent
    {
      if |balls| <= 1 {
        report := NextBall(Transparent, |balls| - 1);
        return balls[0], report;
      }
      report := NextBall(balls[1].color, |balls| - 1);
      return balls[0], report;
    }

    /**
     * Removes the first occurrence of `instance`; `logged` says whether the
     * missing-instance error was logged, which happens exactly when the
     * list does not hold it (and then nothing changes).
     */
    method DeleteBall(instance: Ball) returns (logged: bool)
      modifies this
      ensures logged <==> instance !in old(balls)
      ensures balls == RemoveFirst(old(balls), instance)
    {
      logged := instance !in balls;
      var i := 0;
      while i < |balls| && balls[i] != instance
        invariant 0 <= i <= |balls|
        invariant forall j :: 0 <= j < i ==> balls[j] != instance
      {
        i := i + 1;
      }
      if i < |balls| {
        RemoveFirstAt(balls, instance, i);
        balls := balls[..i] + balls[i + 1..];
      }
    }

    /** Empties the list. */
    method DeleteAllBalls()
      modifies this
      ensures balls == []
    {
      balls := [];
    }
  }

  /**
   * How the spawner takes the next ball to fire: it checks that there is
   * one, reads the current ball and then deletes that ball. The queue loses
   * exactly its head; an empty queue yields no ball, raises the
   * BallsAmountIsZero event (`outOfBalls`) and stays empty.
   */
  method TakeNextBall(container: ShootableBallsContainer) returns (taken: Ball?, report: Option<NextBall>, outOfBalls: bool)
    modifies container
    ensures outOfBalls <==> old(container.balls) == []
    ensures old(container.balls) == [] ==> taken == null && report == None && container.balls == []
    ensures old(container.balls) != [] ==>
              && taken == old(container.balls[0])
              && container.balls == old(container.balls[1..])
              && report.Some? && report.value.remaining == |container.balls|
  {
    var can := container.CanTakeCurrentBall();
    if !can {
      return null, None, true;
    }
    var current, next := container.GetCurrentBall();
    RemoveHead(container.balls);
    var logged := container.DeleteBall(current);
    return current, Some(next), false;
  }
}
