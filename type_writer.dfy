/**
 * The typing effect of script.js (`typeWriter`): the element's text is
 * cleared, then each timer callback appends the next character of `text`
 * until all of it is shown.
 */
module TypeWriter {

  /** One running typing effect: the text to type, the index `i` and the element's text. */
  class Typing {
    const text: string
    var i: nat
    var content: string
    /** Number of times the timer callback `type()` has run. */
    ghost var calls: nat

    /** After `calls` callbacks the element shows the first `min(calls, |text|)` characters. */
    ghost predicate Valid()
      reads this
    {
      && i <= |text|
      && i == (if calls < |text| then calls else |text|)
      && content == text[..i]
    }

    /** `typeWriter(element, text)` before its first callback: `i = 0`, text cleared. */
    constructor (text: string)
      ensures this.text == text && i == 0 && calls == 0 && content == []
      ensures Valid()
    {
      this.text := text;
      i := 0;
      content := [];
      calls := 0;
    }

    /**
     * The callback `type()`: appends `text[i]` and schedules itself again
     * while characters remain; `scheduled` says whether it did.
     */
    method Type() returns (scheduled: bool)
      requires Valid()
      modifies this
      ensures Valid() && calls == old(calls) + 1
      ensures scheduled == (old(i) < |text|)
      ensures i == (if scheduled then old(i) + 1 else old(i))
      ensures content == text[..i]
    {
      scheduled := i < |text|;
      if scheduled {
        content := content + [text[i]];
        i := i + 1;
      }
      calls := calls + 1;
    }

    /** The chain of timer callbacks, run until it stops scheduling: the whole text is shown. */
    method Run()
      requires Valid()
      modifies this
      ensures Valid() && i == |text| && content == text
    {
      var more := Type();
      while more
        invariant Valid()
        invariant !more ==> i == |text|
        decreases |text| - i + (if more then 1 else 0)
      {
        more := Type();
      }
    }
  }
}
