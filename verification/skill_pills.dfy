/** The skill pills enter one after another: each pill's animation starts a
    fixed step later than the previous pill's. */
module SkillPills {

  /** Milliseconds between consecutive pills. */
  const StaggerStep := 30

  /** Writes each pill's animation delay, in milliseconds, in place. */
  method Stagger(delays: array<int>)
    modifies delays
    ensures forall i :: 0 <= i < delays.Length ==> delays[i] == i * StaggerStep
    ensures forall i :: 0 < i < delays.Length ==> delays[i] == delays[i - 1] + StaggerStep
  {
    var index := 0;
    while index < delays.Length
      invariant 0 <= index <= delays.Length
      invariant forall i :: 0 <= i < index ==> delays[i] == i * StaggerStep
    {
      delays[index] := index * StaggerStep;
      index := index + 1;
    }
  }
}
