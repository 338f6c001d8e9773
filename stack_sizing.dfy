/**
 * The stack-size arithmetic of `mp_thread_create_ex`: the requested size
 * in bytes is normalised, handed to the task-creation call as a count of
 * `StackType_t` words, and reported back to the caller less a safety
 * margin that leaves room to recover from hitting the stack limit.
 */
module StackSizing {
  import opened ThreadRecords

  const MinStackSize: nat := 4 * 1024
  const StackMargin: nat := 1024
  const DefaultStackSize: nat := MinStackSize + 1024
  /** `sizeof(StackType_t)`: a `uintptr_t`, 64 bits on the K210. */
  const StackWordSize: nat := 8

  /**
   * A request of 0 takes the default size, a request below the minimum
   * takes the minimum, and any other request is kept.
   */
  function NormaliseStackSize(requested: SizeT): (size: SizeT)
    ensures size >= MinStackSize
    ensures requested >= MinStackSize ==> size == requested
  {
    if requested == 0 then DefaultStackSize
    else if requested < MinStackSize then MinStackSize
    else requested
  }

  /** The size written back to the caller after a successful creation. */
  function ReportedStackSize(requested: SizeT): (size: SizeT)
    ensures size + StackMargin == NormaliseStackSize(requested)
    ensures size >= MinStackSize - StackMargin
  {
    NormaliseStackSize(requested) - StackMargin
  }

  /** The number of whole stack words in `bytes` bytes (C division rounds down). */
  function WordsOf(bytes: SizeT): (words: SizeT)
    ensures words * StackWordSize <= bytes < (words + 1) * StackWordSize
  {
    bytes / StackWordSize
  }

  /**
   * What each kind of request turns into: the default request becomes the
   * default size, a small request the minimum, and the caller is told the
   * margin-reduced size of either.
   */
  lemma NormalisedSizes(requested: SizeT)
    ensures requested == 0 ==> NormaliseStackSize(requested) == 5120 && ReportedStackSize(requested) == 4096
    ensures 0 < requested < MinStackSize ==>
      NormaliseStackSize(requested) == 4096 && ReportedStackSize(requested) == 3072
    ensures requested >= MinStackSize ==> ReportedStackSize(requested) == requested - 1024
  {
  }

  /**
   * The scan range recorded for a created thread never covers more than the
   * words the task was created with, and always holds at least 384 words.
   */
  lemma RecordedWordsWithinTask(requested: SizeT)
    ensures WordsOf(ReportedStackSize(requested)) <= WordsOf(NormaliseStackSize(requested))
    ensures WordsOf(ReportedStackSize(requested)) >= 384
    ensures WordsOf(NormaliseStackSize(requested)) - WordsOf(ReportedStackSize(requested)) == StackMargin / StackWordSize
  {
    var n := NormaliseStackSize(requested);
    var w := WordsOf(n);
    var rw := WordsOf(n - StackMargin);
    assert (w - 128) * 8 <= n - 1024 < (w - 127) * 8;
  }
}
