/**
 What a form submission does besides computing messages: the successive writes
 to a piece of React component state, the toast it shows, and the navigation it
 schedules. Toast placement and auto-close options, and the timer itself, are
 not modelled; a scheduled navigation is only its target path and delay.
 */
module FormEffects {

  datatype Option<+T> = None | Some(value: T)

  datatype ToastKind = SuccessToast | ErrorToast

  /** A `toast.success(text)` or `toast.error(text)` call. */
  datatype Toast = Toast(kind: ToastKind, text: string)

  /** A `setTimeout(() => navigate(path), delayMs)` call. */
  datatype Navigation = Navigation(path: string, delayMs: nat)

  /** Both forms redirect after this many milliseconds. */
  const RedirectDelayMs: nat := 3000

  /** The value of a state variable after its setter was called with each of
      `writes` in turn, starting from `prev`. Every call replaces the value,
      so the last write wins and `prev` survives only when nothing is
      written. */
  function Final<T>(prev: T, writes: seq<T>): (v: T)
    ensures writes == [] ==> v == prev
    ensures writes != [] ==> v == writes[|writes| - 1]
  {
    if writes == [] then prev else Final(writes[0], writes[1..])
  }

  /** Once anything has been written, the earlier value is irrelevant. */
  lemma FinalForgetsPrevious<T>(prev1: T, prev2: T, writes: seq<T>)
    requires writes != []
    ensures Final(prev1, writes) == Final(prev2, writes)
  {
  }
}
