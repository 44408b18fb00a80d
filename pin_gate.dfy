/**
 * The PIN entry form: the input keeps only ASCII digits, at most four of them,
 * and submitting unlocks only when the PIN is exactly four digits.
 */
module PinGate {

  /** What `\d` matches in a JavaScript regular expression without the `u` flag. */
  predicate IsDigit(c: char) {
    '0' <= c <= '9'
  }

  predicate AllDigits(s: string) {
    forall i :: 0 <= i < |s| ==> IsDigit(s[i])
  }

  /** `s.replace(/\D/g, "")`: the digits of `s`, in order. */
  function Digits(s: string): (r: string)
    ensures AllDigits(r) && |r| <= |s|
    decreases |s|
  {
    if s == [] then []
    else
      var rest := Digits(s[..|s| - 1]);
      if IsDigit(s[|s| - 1]) then rest + [s[|s| - 1]] else rest
  }

  /** Keeping the digits distributes over concatenation. */
  lemma {:induction false} DigitsAppend(a: string, b: string)
    ensures Digits(a + b) == Digits(a) + Digits(b)
    decreases |b|
  {
    if b == [] {
      assert a + b == a;
    } else {
      var b' := b[..|b| - 1];
      assert (a + b)[..|a + b| - 1] == a + b';
      DigitsAppend(a, b');
    }
  }

  /** A string of digits is left as it is. */
  lemma {:induction false} DigitsOfDigits(s: string)
    requires AllDigits(s)
    ensures Digits(s) == s
    decreases |s|
  {
    if s != [] {
      DigitsOfDigits(s[..|s| - 1]);
    }
  }

  /** The number of digits in `s`. */
  function DigitCount(s: string): nat {
    |Digits(s)|
  }

  /** `onPinChange`: `value.replace(/\D/g, "").slice(0, 4)`. */
  function Sanitize(s: string): (r: string)
    ensures AllDigits(r)
    ensures |r| == if DigitCount(s) < 4 then DigitCount(s) else 4
    ensures r == Digits(s)[..|r|]
  {
    var d := Digits(s);
    if |d| <= 4 then d else d[..4]
  }

  /** Sanitising a sanitised PIN changes nothing. */
  lemma SanitizeIdempotent(s: string)
    ensures Sanitize(Sanitize(s)) == Sanitize(s)
  {
    DigitsOfDigits(Sanitize(s));
  }

  /** `/^\d{4}$/.test(pin)`. */
  predicate IsPin(pin: string) {
    |pin| == 4 && AllDigits(pin)
  }

  const PinError: string := "Enter a 4-digit PIN."

  /** The form's state: the PIN in the input, the error message, and whether it has unlocked. */
  datatype Gate = Gate(pin: string, err: string, unlocked: bool)

  /** `onPinChange`: the input takes the sanitised text and any error is cleared. */
  function OnPinChange(g: Gate, input: string): (g': Gate)
    ensures g'.pin == Sanitize(input) && g'.err == "" && g'.unlocked == g.unlocked
  {
    g.(pin := Sanitize(input), err := if g.err != "" then "" else g.err)
  }

  /** `submit`: unlocks with a four-digit PIN, otherwise shows the error and stays locked. */
  function Submit(g: Gate): (g': Gate)
    ensures g'.pin == g.pin
    ensures IsPin(g.pin) ==> g'.unlocked && g'.err == ""
    ensures !IsPin(g.pin) ==> g'.unlocked == g.unlocked && g'.err == PinError
  {
    var cleared := g.(err := "");
    if !IsPin(cleared.pin) then cleared.(err := PinError)
    else cleared.(unlocked := true)
  }

  /** Typing text into the input and submitting unlocks exactly when the text holds at least
      four digits; otherwise the error is shown and the gate stays as locked as it was. */
  lemma TypedPinUnlocksIffFourDigits(g: Gate, input: string)
    ensures var g' := Submit(OnPinChange(g, input));
      && (IsPin(g'.pin) <==> DigitCount(input) >= 4)
      && (DigitCount(input) >= 4 ==> g'.unlocked && g'.err == "")
      && (DigitCount(input) < 4 ==> g'.unlocked == g.unlocked && g'.err == PinError)
  {
  }
}
