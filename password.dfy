/** The coordinator's per-record state (`Master.Password`): one input line with its
    encrypted hints and, index-aligned with them, the hints decrypted so far. */
module Passwords {
  import opened Lists

  /** The value a `Password` object holds at one moment. */
  datatype Record = Record(
    id: int,
    name: string,
    passwordLength: int,
    alphabet: seq<char>,
    encryptedPassword: string,
    decryptedPassword: string,
    hintsEncrypted: seq<string>,
    hintsDecrypted: seq<string>)

  /** Every hint slot holds a non-empty decrypted value (`checkAllDecryptedHintsTrue`). */
  predicate Resolved(hintsDecrypted: seq<string>) {
    forall k :: 0 <= k < |hintsDecrypted| ==> hintsDecrypted[k] != ""
  }

  /** The decrypted slots after `addDecryptedHint(hint, value)`: the first slot whose
      encrypted hint equals `hint` receives `value`. When no slot matches, the source fails
      with an ArrayIndexOutOfBoundsException before writing anything. */
  function WithHint(hintsEncrypted: seq<string>, hintsDecrypted: seq<string>, hint: string, value: string): (r: seq<string>)
    requires |hintsDecrypted| == |hintsEncrypted|
    ensures |r| == |hintsDecrypted|
    ensures forall k :: 0 <= k < |r| && hintsEncrypted[k] == hint && hint !in hintsEncrypted[..k] ==> r[k] == value
    ensures forall k :: 0 <= k < |r| && (hintsEncrypted[k] != hint || hint in hintsEncrypted[..k]) ==> r[k] == hintsDecrypted[k]
  {
    var i := IndexOf(hintsEncrypted, hint);
    if i == -1 then hintsDecrypted
    else hintsDecrypted[i := value]
  }

  /** Recording the same decrypted hint twice is the same as recording it once. */
  lemma WithHintIdempotent(hintsEncrypted: seq<string>, hintsDecrypted: seq<string>, hint: string, value: string)
    requires |hintsDecrypted| == |hintsEncrypted|
    ensures var once := WithHint(hintsEncrypted, hintsDecrypted, hint, value);
            WithHint(hintsEncrypted, once, hint, value) == once
  {
  }

  /** Once every hint is decrypted, recording further non-empty hints keeps it so. */
  lemma ResolvedPersists(hintsEncrypted: seq<string>, hintsDecrypted: seq<string>, hint: string, value: string)
    requires |hintsDecrypted| == |hintsEncrypted|
    requires Resolved(hintsDecrypted) && value != ""
    ensures Resolved(WithHint(hintsEncrypted, hintsDecrypted, hint, value))
  {
  }

  /** A record with no hints counts as resolved from the start. */
  lemma NoHintsResolved()
    ensures Resolved([])
  {
  }

  /** Two hints: resolution flips from false to true exactly with the second recorded hint. */
  lemma TwoHintsResolveOnSecond()
    ensures var first := WithHint(["H1", "H2"], ["", ""], "H1", "a");
            var second := WithHint(["H1", "H2"], first, "H2", "b");
            && !Resolved(first)
            && Resolved(second)
            && second == ["a", "b"]
  {
    var first := WithHint(["H1", "H2"], ["", ""], "H1", "a");
    assert first[1] == "";
    assert ["H1", "H2"][..1] == ["H1"];
  }

  class Password {
    const id: int
    const name: string
    const passwordLength: int
    const encryptedPassword: string
    var decryptedPassword: string
    const hintsEncrypted: array<string>
    const hintsDecrypted: array<string>
    const possibleCharacters: seq<char>

    /** The two hint arrays are distinct and index-aligned. */
    predicate Valid() {
      hintsEncrypted.Length == hintsDecrypted.Length && hintsEncrypted != hintsDecrypted
    }

    function View(): Record
      reads this, hintsEncrypted, hintsDecrypted
    {
      Record(id, name, passwordLength, possibleCharacters, encryptedPassword, decryptedPassword,
             hintsEncrypted[..], hintsDecrypted[..])
    }

    /** A new record: the hint array is copied, the decrypted slots and the decrypted
        password start empty. */
    constructor (id: int, name: string, encryptedPassword: string, hints: seq<string>,
                 alphabet: seq<char>, pwLength: int)
      ensures Valid() && fresh(hintsEncrypted) && fresh(hintsDecrypted)
      ensures View() == Record(id, name, pwLength, alphabet, encryptedPassword, "",
                               hints, seq(|hints|, _ => ""))
    {
      this.id := id;
      this.name := name;
      this.encryptedPassword := encryptedPassword;
      this.decryptedPassword := "";
      this.hintsEncrypted := new string[|hints|](k requires 0 <= k < |hints| => hints[k]);
      this.hintsDecrypted := new string[|hints|](_ => "");
      this.possibleCharacters := alphabet;
      this.passwordLength := pwLength;
    }

    /** `Object.clone`: a new object with the same field values. It is shallow, so the
        clone and the original share both hint arrays and a later write to one is seen
        through the other. */
    constructor Clone(original: Password)
      requires original.Valid()
      ensures Valid()
      ensures View() == original.View()
      ensures hintsEncrypted == original.hintsEncrypted && hintsDecrypted == original.hintsDecrypted
    {
      id := original.id;
      name := original.name;
      passwordLength := original.passwordLength;
      encryptedPassword := original.encryptedPassword;
      decryptedPassword := original.decryptedPassword;
      hintsEncrypted := original.hintsEncrypted;
      hintsDecrypted := original.hintsDecrypted;
      possibleCharacters := original.possibleCharacters;
    }

    /** `getIndexOFHintsEncryptedArrayElement`: the first slot holding `element`, or -1. */
    method IndexOfEncryptedHint(element: string) returns (index: int)
      ensures -1 <= index < hintsEncrypted.Length
      ensures index == -1 <==> element !in hintsEncrypted[..]
      ensures 0 <= index ==> (hintsEncrypted[index] == element
                              && forall k :: 0 <= k < index ==> hintsEncrypted[k] != element)
    {
      var i := 0;
      while i < hintsEncrypted.Length
        invariant 0 <= i <= hintsEncrypted.Length
        invariant forall k :: 0 <= k < i ==> hintsEncrypted[k] != element
      {
        if element == hintsEncrypted[i] {
          return i;
        }
        i := i + 1;
      }
      return -1;
    }

    /** `setHintsDecryptedArrayWithIndex`; `inBounds` is false where Java raises
        ArrayIndexOutOfBoundsException, and then nothing is written. */
    method SetDecryptedHintAt(index: int, value: string) returns (inBounds: bool)
      modifies hintsDecrypted
      ensures inBounds <==> 0 <= index < hintsDecrypted.Length
      ensures hintsDecrypted[..] == if inBounds then old(hintsDecrypted[..])[index := value]
                                    else old(hintsDecrypted[..])
    {
      if 0 <= index < hintsDecrypted.Length {
        hintsDecrypted[index] := value;
        return true;
      }
      return false;
    }

    /** `addDecryptedHint`: looks the encrypted hint up and writes the decrypted value into
        that slot. An unknown hint yields index -1 and the write fails. */
    method AddDecryptedHint(encrypted: string, decrypted: string) returns (inBounds: bool)
      requires Valid()
      modifies hintsDecrypted
      ensures inBounds <==> encrypted in hintsEncrypted[..]
      ensures hintsDecrypted[..] == WithHint(hintsEncrypted[..], old(hintsDecrypted[..]), encrypted, decrypted)
    {
      var index := IndexOfEncryptedHint(encrypted);
      assert index == IndexOf(hintsEncrypted[..], encrypted) by {
        IndexOfFirst(hintsEncrypted[..], encrypted, index);
      }
      inBounds := SetDecryptedHintAt(index, decrypted);
    }

    /** `checkAllDecryptedHintsTrue`: no decrypted slot is the empty string. */
    method AllHintsDecrypted() returns (allDecrypted: bool)
      ensures allDecrypted <==> Resolved(hintsDecrypted[..])
    {
      var i := 0;
      while i < hintsDecrypted.Length
        invariant 0 <= i <= hintsDecrypted.Length
        invariant forall k :: 0 <= k < i ==> hintsDecrypted[k] != ""
      {
        if hintsDecrypted[i] == "" {
          return false;
        }
        i := i + 1;
      }
      return true;
    }
  }
}
