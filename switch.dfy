/**
 * Bootinq::Switch (lib/bootinq/switch.rb): every method call on the switch
 * goes to `method_missing`, which yields the block when the method's name is
 * an enabled component and answers nil otherwise. The instance it asks is the
 * Bootinq singleton, passed here as a parameter.
 */
module Switching {
  import opened Wrappers
  import opened Components
  import opened Resolution

  /** What one dispatched call produced: the block's value, or nil when the block was not run. */
  datatype Dispatch<T> = Ran(value: T) | Skipped

  /**
   * `switch.<name> { ... }`: `block` is the value the block returns if it is
   * given and run (None when no block is passed); `yield` without a block
   * raises LocalJumpError.
   */
  function MethodMissing<T>(b: Bootinq, name: string, block: Option<T>): (r: Result<Dispatch<T>, Error>)
    reads b
    ensures b.Enabled(Sym(name)) && block.Some? ==> r == Success(Ran(block.value))
    ensures !b.Enabled(Sym(name)) ==> r == Success(Skipped)
    ensures b.Enabled(Sym(name)) && block.None? ==> r.Failure? && r.error.LocalJumpError?
  {
    if b.Enabled(Sym(name)) then
      match block
      case Some(v) => Success(Ran(v))
      case None => Failure(LocalJumpError("no block given (yield)"))
    else Success(Skipped)
  }

  /** The block runs (once) exactly when the name is enabled. */
  lemma RunsIffEnabled<T>(b: Bootinq, name: string, v: T)
    ensures MethodMissing(b, name, Some(v)).Success?
    ensures MethodMissing(b, name, Some(v)).value.Ran? <==> b.Enabled(Sym(name))
  {
  }

  /** A name that is no activated component's name never raises and never runs the block. */
  lemma UnknownNameIsSilent<T>(b: Bootinq, name: string, block: Option<T>)
    requires forall i :: 0 <= i < |b.components| ==> b.components[i].name != name
    ensures MethodMissing(b, name, block) == Success(Skipped)
  {
  }

  /** Dispatch through the switch agrees with `on(name)` given the same block. */
  lemma AgreesWithOn<T>(b: Bootinq, name: string, v: T)
    ensures b.On(Sym(name), Missing, Missing, true).Success?
    ensures MethodMissing(b, name, Some(v)).value.Ran? <==> b.On(Sym(name), Missing, Missing, true).value.matched
  {
  }
}
