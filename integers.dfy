/** Small integer helpers shared by the seeding and the pattern. */
module Integers {

  function Min(u: int, v: int): int { if u <= v then u else v }

  function Max(u: int, v: int): int { if u >= v then u else v }

  function Abs(u: int): nat { if u < 0 then -u else u }
}
