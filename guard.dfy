/**
 * The DEBUG guard-object check (`JSGuardObjectNotifier` and
 * `JSGuardObjectNotificationReceiver`).  A guard class holds a receiver;
 * its constructor takes a defaulted notifier argument and calls `Init`,
 * which points the notifier at the receiver's flag.  When the guard is a
 * named variable the notifier temporary dies at the end of the
 * declaration statement and sets the flag, so the receiver's assertion
 * holds when the guard later dies.  When the guard itself is a temporary
 * it dies first, with the flag still clear.
 *
 * A failed `JS_ASSERT` and the NULL write are outcomes, not preconditions,
 * so that the protocol can be stated over all orders of events.
 */
module GuardObjects {

  class Receiver {
    /** `mStatementDone`. */
    var statementDone: bool

    constructor ()
      ensures !statementDone
    {
      statementDone := false;
    }

    /** `Init(aNotifier)`: hand the notifier the address of this receiver's flag. */
    method Init(notifier: Notifier)
      modifies notifier
      ensures notifier.target == this
    {
      notifier.SetStatementDone(this);
    }

    /** The destructor's `JS_ASSERT(mStatementDone)`: `holds` is the asserted condition. */
    method Destroy() returns (holds: bool)
      ensures holds == statementDone
    {
      holds := statementDone;
    }
  }

  class Notifier {
    /** `mStatementDone`: the receiver whose flag this notifier sets; null is NULL. */
    var target: Receiver?

    constructor ()
      ensures target == null
    {
      target := null;
    }

    method SetStatementDone(receiver: Receiver)
      modifies this
      ensures target == receiver
    {
      target := receiver;
    }

    /**
     * The destructor's `*mStatementDone = true`.  With no receiver set it
     * writes through NULL (`nullWrite`) and changes nothing in the model.
     */
    method Destroy() returns (nullWrite: bool)
      modifies target
      ensures nullWrite <==> target == null
      ensures target != null ==> target.statementDone
    {
      nullWrite := target == null;
      if target != null {
        target.statementDone := true;
      }
    }
  }

  datatype GuardOutcome = Passed | AssertionFired | NullWrite

  /**
   * One guard object's life.  `callInit` says whether its constructor
   * calls `Init`; `usedAsTemporary` says whether the guard dies before its
   * notifier argument.  The first failure decides the outcome.
   */
  method GuardLifetime(callInit: bool, usedAsTemporary: bool) returns (outcome: GuardOutcome)
    ensures outcome == Passed <==> callInit && !usedAsTemporary
    ensures outcome == AssertionFired <==> usedAsTemporary
    ensures outcome == NullWrite <==> !callInit && !usedAsTemporary
  {
    var notifier := new Notifier();  // the defaulted argument, built before the guard
    var receiver := new Receiver();
    if callInit {
      receiver.Init(notifier);
    }
    if usedAsTemporary {
      // The guard is destroyed first, before any notifier could set its flag.
      var holds := receiver.Destroy();
      assert !holds;
      outcome := AssertionFired;
    } else {
      // End of the declaration statement: the notifier temporary dies first.
      var nullWrite := notifier.Destroy();
      if nullWrite {
        return NullWrite;
      }
      var holds := receiver.Destroy();
      outcome := if holds then Passed else AssertionFired;
    }
  }
}
