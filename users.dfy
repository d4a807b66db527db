/** The area a simulated user reports to: the largest area number, counting
    down from the number of areas, that divides the user number. */
module Users {
  import opened Js

  /** The number of areas. */
  const AreaCount := 3

  /** `user % area === 0`, with `%` as JavaScript computes it. */
  predicate DividesUser(user: int, area: int)
    requires area > 0
  {
    Rem(user, area) == 0
  }

  /** areaFromUser: counts down from the number of areas until the user
      number is a multiple. Area 1 divides every user, so it always stops. */
  method AreaFromUser(user: int) returns (area: int)
    ensures 1 <= area <= AreaCount
    ensures DividesUser(user, area)
    ensures forall d :: area < d <= AreaCount ==> !DividesUser(user, d)
  {
    area := AreaCount;
    while Rem(user, area) != 0
      invariant 1 <= area <= AreaCount
      invariant forall d :: area < d <= AreaCount ==> !DividesUser(user, d)
      decreases area
    {
      assert area != 1 by {
        assert user % 1 == 0;
      }
      area := area - 1;
    }
  }
}
