/** The execution errors that the two transactions report, with their fixed
    numeric codes. */
module Errors {

  datatype Error =
    | WalletAlreadyExists
    | SenderNotFound
    | ReceiverNotFound
    | InsufficientCurrencyAmount
    | SenderSameAsReceiver

  const MAX_CODE: nat := 4

  /** The numeric discriminant reported to callers. */
  function Code(e: Error): (c: nat)
    ensures c <= MAX_CODE
  {
    match e
    case WalletAlreadyExists => 0
    case SenderNotFound => 1
    case ReceiverNotFound => 2
    case InsufficientCurrencyAmount => 3
    case SenderSameAsReceiver => 4
  }

  lemma CodeValues()
    ensures Code(WalletAlreadyExists) == 0
    ensures Code(SenderNotFound) == 1
    ensures Code(ReceiverNotFound) == 2
    ensures Code(InsufficientCurrencyAmount) == 3
    ensures Code(SenderSameAsReceiver) == 4
  {
  }

  /** Codes are pairwise distinct: a code identifies its error. */
  lemma CodeInjective(e1: Error, e2: Error)
    requires Code(e1) == Code(e2)
    ensures e1 == e2
  {
  }

  /** Every code in 0..4 is used by some error. */
  lemma CodeOnto(c: nat)
    requires c <= MAX_CODE
    ensures exists e :: Code(e) == c
  {
    if c == 0 {
      assert Code(WalletAlreadyExists) == c;
    } else if c == 1 {
      assert Code(SenderNotFound) == c;
    } else if c == 2 {
      assert Code(ReceiverNotFound) == c;
    } else if c == 3 {
      assert Code(InsufficientCurrencyAmount) == c;
    } else {
      assert Code(SenderSameAsReceiver) == c;
    }
  }
}
