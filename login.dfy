/** The sign-in form: a mobile number and a four-slot PIN, each slot holding
    at most one digit, posted as a login request once all four are filled. */
module Login {
  import opened Values

  /** The number of PIN slots. */
  const PinLength: int := 4

  /** The device name every login request carries. */
  const WebDevice: string := "web-device"

  /** The PIN as the form starts: four empty slots. */
  const EmptyPin: seq<string> := ["", "", "", ""]

  /** `/^[0-9]?$/.test(value)`: an empty slot or one ASCII digit. */
  predicate PinSlot(value: string) {
    value == "" || (|value| == 1 && IsDigit(value[0]))
  }

  /** Four slots, each empty or one digit. */
  predicate ValidPin(pin: seq<string>) {
    |pin| == PinLength && forall i :: 0 <= i < |pin| ==> PinSlot(pin[i])
  }

  /** The PIN after `handlePinChange(value, index)`: a copy with the slot
      replaced when the value passes the pattern, the PIN as it was otherwise. */
  function PinChange(pin: seq<string>, value: string, index: int): (r: seq<string>)
    requires 0 <= index < |pin|
    ensures |r| == |pin| && forall i :: 0 <= i < |pin| && i != index ==> r[i] == pin[i]
    ensures r[index] == (if PinSlot(value) then value else pin[index])
    ensures ValidPin(pin) ==> ValidPin(r)
  {
    if PinSlot(value) then pin[index := value] else pin
  }

  /** The body posted by `loginUser`: `{ Username, Password, DeviceId }`. */
  datatype LoginRequest = LoginRequest(username: string, password: string, deviceId: string)

  /** The state of the sign-in form. */
  class LoginForm {
    /** `mobile` */
    var mobile: string
    /** `pin` */
    var pin: seq<string>

    constructor ()
      ensures mobile == "" && pin == EmptyPin
    {
      mobile := "";
      pin := EmptyPin;
    }

    /** The mobile field's `onChange`. */
    method SetMobile(value: string)
      modifies this
      ensures mobile == value && pin == old(pin)
    {
      mobile := value;
    }

    /** `handlePinChange(value, index)`, called by the slot at `index`: the
        slot takes a value that is empty or one digit, and every other value
        is ignored; a PIN of four valid slots stays one. */
    method HandlePinChange(value: string, index: int)
      requires 0 <= index < |pin|
      modifies this
      ensures pin == PinChange(old(pin), value, index) && mobile == old(mobile)
      ensures old(ValidPin(pin)) ==> ValidPin(pin)
    {
      if !PinSlot(value) {
        return;
      }
      pin := pin[index := value];
    }

    /** `handleLogin()`: a request is sent exactly when the joined PIN has four
        characters; it carries the mobile number as typed, the joined PIN
        and the fixed device name. Nothing in the form changes. */
    method HandleLogin() returns (request: Option<LoginRequest>)
      ensures request.Some? <==> |Join(pin, "")| == PinLength
      ensures request.Some? ==> request.value == LoginRequest(mobile, Join(pin, ""), WebDevice)
    {
      var fullPin := Join(pin, "");
      if |fullPin| != PinLength {
        return None;
      }
      request := Some(LoginRequest(mobile, fullPin, WebDevice));
    }
  }

  // ---------------------------------------------------------------- properties

  /** Four slots joined with no separator are the slots one after another. */
  lemma JoinFour(pin: seq<string>)
    requires |pin| == 4
    ensures Join(pin, "") == pin[0] + pin[1] + pin[2] + pin[3]
  {
    var p1, p2, p3 := pin[1..], pin[2..], pin[3..];
    assert p1[0] == pin[1] && p1[1..] == p2;
    assert p2[0] == pin[2] && p2[1..] == p3;
    assert p3 == [pin[3]];
    assert Join(p3, "") == pin[3];
    assert Join(p2, "") == pin[2] + pin[3];
    assert Join(p1, "") == pin[1] + (pin[2] + pin[3]);
  }

  /** With every slot empty or one digit, the joined PIN has four characters
      exactly when no slot is empty. */
  lemma FullPinIff(pin: seq<string>)
    requires ValidPin(pin)
    ensures |Join(pin, "")| == PinLength <==> forall i :: 0 <= i < |pin| ==> pin[i] != ""
  {
    JoinFour(pin);
    assert PinSlot(pin[0]) && PinSlot(pin[1]) && PinSlot(pin[2]) && PinSlot(pin[3]);
  }

  /** A PIN with every slot filled is posted as four digits, the slots'
      digits in slot order. */
  lemma FullPinDigits(pin: seq<string>)
    requires ValidPin(pin) && forall i :: 0 <= i < |pin| ==> pin[i] != ""
    ensures |Join(pin, "")| == PinLength && AllDigits(Join(pin, ""))
    ensures Join(pin, "") == [pin[0][0], pin[1][0], pin[2][0], pin[3][0]]
  {
    JoinFour(pin);
    forall i | 0 <= i < 4 ensures pin[i] == [pin[i][0]] && IsDigit(pin[i][0]) {
      assert pin[i] != "" && PinSlot(pin[i]);
    }
  }

  /** A fresh form cannot log in: its joined PIN is empty. */
  lemma EmptyPinSendsNothing()
    ensures |Join(EmptyPin, "")| != PinLength
  {
    JoinFour(EmptyPin);
  }

  /** A value that is not one digit, such as two digits or a letter, leaves
      the PIN as it was. */
  lemma RejectedValueKeepsPin(pin: seq<string>, value: string, index: int)
    requires 0 <= index < |pin| && |value| >= 2
    ensures PinChange(pin, value, index) == pin
  {
  }

  /** Clearing any slot blocks the login until it is filled again. */
  lemma ClearedSlotBlocksLogin(pin: seq<string>, index: int)
    requires ValidPin(pin) && 0 <= index < |pin|
    ensures |Join(PinChange(pin, "", index), "")| != PinLength
  {
    var after := PinChange(pin, "", index);
    assert after[index] == "";
    FullPinIff(after);
  }

  /** Typing one digit into each slot of a fresh form, first slot to last,
      posts those digits as the password. */
  lemma TypedPin(a: char, b: char, c: char, d: char)
    requires IsDigit(a) && IsDigit(b) && IsDigit(c) && IsDigit(d)
    ensures var typed := PinChange(PinChange(PinChange(PinChange(EmptyPin, [a], 0), [b], 1), [c], 2), [d], 3);
            ValidPin(typed) && Join(typed, "") == [a, b, c, d]
  {
    var typed := PinChange(PinChange(PinChange(PinChange(EmptyPin, [a], 0), [b], 1), [c], 2), [d], 3);
    assert typed == [[a], [b], [c], [d]];
    JoinFour(typed);
  }
}
