/**
 * The singleton logger of systemDesign.cs. C#'s static field `instance`
 * and the lock-guarded `Instance` getter are modelled as an object that
 * holds the field; the lock has no counterpart because accesses are
 * modelled one at a time.
 */
module Logging {

  /** A logger; its `Log` method only writes to the console. */
  class Logger {
    constructor ()
    {
    }
  }

  /** The static state of class Logger: the `instance` field. */
  class LoggerStatics {
    var instance: Logger?
    /** How many times the private constructor has run. */
    ghost var constructed: nat

    ghost predicate Valid()
      reads this
    {
      (instance == null <==> constructed == 0) && constructed <= 1
    }

    constructor ()
      ensures Valid() && instance == null && constructed == 0
    {
      instance := null;
      constructed := 0;
    }

    /**
     * `instance ??= new Logger()`: the first access constructs the logger,
     * every later access returns that same object and constructs nothing.
     */
    method Instance() returns (logger: Logger)
      requires Valid()
      modifies this
      ensures Valid()
      ensures old(instance) == null ==> fresh(logger) && constructed == 1
      ensures old(instance) != null ==> logger == old(instance) && constructed == old(constructed)
      ensures instance == logger
    {
      if instance == null {
        instance := new Logger();
        constructed := constructed + 1;
      }
      logger := instance;
    }
  }

  /** Two accesses from a fresh start observe the same object, built once. */
  method AccessTwice() returns (first: Logger, second: Logger, ghost built: nat)
    ensures first == second
    ensures built == 1
  {
    var statics := new LoggerStatics();
    first := statics.Instance();
    second := statics.Instance();
    built := statics.constructed;
  }
}
