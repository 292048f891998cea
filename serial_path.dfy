/** The two pure helpers on the sender's serial path: the device-path
    builder and the baud-rate clamp of sender_c/serial_win.c. */
module SerialPath {
  import opened Common

  // ---------------------------------------------------------------------
  // clamp_baud
  // ---------------------------------------------------------------------

  /** A Win32 `DWORD`. */
  newtype DWORD = x: int | 0 <= x < 0x1_0000_0000

  /** The lowest link rate the sender accepts, and the default. */
  const MinBaud: DWORD := 28800

  /** `clamp_baud`: 0 means "not given" and becomes the default; any other
      request below the floor is raised to it. */
  function ClampBaud(req: DWORD): (r: DWORD)
    ensures req == 0 ==> r == MinBaud
    ensures r >= MinBaud
    ensures MinBaud <= req ==> r == req
    ensures r == req || r == MinBaud
  {
    var req := if req == 0 then MinBaud else req;
    if req < MinBaud then MinBaud else req
  }

  /** Clamping an already clamped rate changes nothing. */
  lemma ClampBaudIdempotent(req: DWORD)
    ensures ClampBaud(ClampBaud(req)) == ClampBaud(req)
  {
  }

  // ---------------------------------------------------------------------
  // C strings and _strnicmp
  // ---------------------------------------------------------------------

  /** A NUL-terminated C string, given by the characters before its NUL;
      each character is one byte (`char`), so lengths count bytes. */
  type CString = s: string | '\0' !in s && forall c | c in s :: c as int < 256

  /** The character at position `i`, reading the terminating NUL (and
      nothing else) at and beyond the end. */
  function CharAt(s: CString, i: nat): (c: char)
    ensures c == '\0' <==> |s| <= i
  {
    if i < |s| then s[i] else '\0'
  }

  predicate IsUpper(c: char) {
    'A' <= c <= 'Z'
  }

  predicate IsLetter(c: char) {
    IsUpper(c) || 'a' <= c <= 'z'
  }

  /** ASCII case folding, as `tolower` in the "C" locale: the result is
      never an upper-case letter, it is a letter exactly when the input
      is, and anything that is not a letter (NUL included) is kept. */
  function ToLower(c: char): (r: char)
    ensures !IsUpper(r)
    ensures IsLetter(r) <==> IsLetter(c)
    ensures !IsLetter(c) ==> r == c
    ensures !IsUpper(c) ==> r == c
  {
    if IsUpper(c) then (c as int + 32) as char else c
  }

  /** Folding is idempotent, and an upper-case letter folds to the same
      character as its lower-case partner, so `_strnicmp` treats the two
      as equal. */
  lemma ToLowerFolds(c: char)
    ensures ToLower(ToLower(c)) == ToLower(c)
    ensures IsUpper(c) ==> ToLower(c) == ToLower((c as int + 32) as char) && ToLower(c) != c
  {
  }

  /** The two strings agree, ignoring case, on their first `n` positions,
      the terminating NUL included. */
  ghost predicate EqualIgnoringCase(a: CString, b: CString, n: nat) {
    forall i :: 0 <= i < n ==> ToLower(CharAt(a, i)) == ToLower(CharAt(b, i))
  }

  /** `_strnicmp(a, b, n)`: compares at most `n` characters, folding case,
      and stops at the first difference or at a common end of string. */
  function StrNICmp(a: CString, b: CString, n: nat): (r: int)
    ensures r == 0 <==> EqualIgnoringCase(a, b, n)
    decreases n
  {
    if n == 0 then 0
    else
      var c1, c2 := ToLower(CharAt(a, 0)), ToLower(CharAt(b, 0));
      if c1 != c2 then c1 as int - c2 as int
      else if c1 == '\0' then
        assert a == [] && b == [];
        0
      else
        EqualIgnoringCaseTail(a, b, n);
        StrNICmp(a[1..], b[1..], n - 1)
  }

  /** Once the first characters agree, agreement on `n` positions is
      agreement of the tails on `n - 1`. */
  lemma EqualIgnoringCaseTail(a: CString, b: CString, n: nat)
    requires 0 < n && a != [] && b != []
    requires ToLower(a[0]) == ToLower(b[0])
    ensures EqualIgnoringCase(a, b, n) <==> EqualIgnoringCase(a[1..], b[1..], n - 1)
  {
    forall i | 1 <= i < n
      ensures CharAt(a[1..], i - 1) == CharAt(a, i) && CharAt(b[1..], i - 1) == CharAt(b, i)
    {
    }
    if EqualIgnoringCase(a[1..], b[1..], n - 1) {
      forall i | 0 <= i < n ensures ToLower(CharAt(a, i)) == ToLower(CharAt(b, i)) {
        if i > 0 {
          assert ToLower(CharAt(a[1..], i - 1)) == ToLower(CharAt(b[1..], i - 1));
        }
      }
    }
    if EqualIgnoringCase(a, b, n) {
      forall i | 0 <= i < n - 1
        ensures ToLower(CharAt(a[1..], i)) == ToLower(CharAt(b[1..], i))
      {
        assert ToLower(CharAt(a, i + 1)) == ToLower(CharAt(b, i + 1));
      }
    }
  }

  // ---------------------------------------------------------------------
  // build_com_path
  // ---------------------------------------------------------------------

  /** The Win32 device namespace prefix `\\.\`. */
  const DevicePrefix: CString := "\\\\.\\"

  /** `outPath` holds 64 characters, so at most 63 before its NUL. */
  const MaxPathLength: nat := 63

  /** The test at the head of `build_com_path`. */
  predicate HasDevicePrefix(name: CString) {
    StrNICmp(name, DevicePrefix, |DevicePrefix|) == 0
  }

  /** The device prefix contains no letter, so the case-insensitive test
      is the same as an exact comparison of the first four characters. */
  lemma HasDevicePrefixExactly(name: CString)
    ensures HasDevicePrefix(name) <==> |name| >= 4 && name[..4] == DevicePrefix
  {
    if HasDevicePrefix(name) {
      assert EqualIgnoringCase(name, DevicePrefix, 4);
      forall i | 0 <= i < 4 ensures i < |name| && name[i] == DevicePrefix[i] {
        assert ToLower(CharAt(name, i)) == ToLower(CharAt(DevicePrefix, i));
      }
    }
  }

  /** `build_com_path`: `None` stands for the NULL name (the `false`
      return) and the result string for the contents of `outPath` before
      its NUL. A name that already carries the prefix is copied, anything
      else gets the prefix put in front; either way the result is cut to
      the 63 characters that fit. */
  function BuildComPath(name: Option<CString>): (r: Option<CString>)
    ensures r.None? <==> name.None?
    ensures r.Some? ==> |r.value| <= MaxPathLength
    ensures r.Some? && HasDevicePrefix(name.value) ==>
      |r.value| == Min(MaxPathLength, |name.value|) && r.value <= name.value
    ensures r.Some? && !HasDevicePrefix(name.value) ==>
      |r.value| == Min(MaxPathLength, |DevicePrefix| + |name.value|) &&
      r.value <= DevicePrefix + name.value
  {
    match name
    case None => None
    case Some(s) =>
      if HasDevicePrefix(s) then
        Some(s[..Min(MaxPathLength, |s|)])
      else
        var full := DevicePrefix + s;
        Some(full[..Min(MaxPathLength, |full|)])
  }

  /** Every path the builder produces starts with the device prefix. */
  lemma BuildComPathHasPrefix(name: CString)
    ensures HasDevicePrefix(BuildComPath(Some(name)).value)
  {
    var r := BuildComPath(Some(name)).value;
    if HasDevicePrefix(name) {
      HasDevicePrefixExactly(name);
      assert r[..4] == name[..4];
    } else {
      assert r[..4] == (DevicePrefix + name)[..4] == DevicePrefix;
    }
    HasDevicePrefixExactly(r);
  }

  /** Feeding a built path back into the builder returns it unchanged. */
  lemma BuildComPathIdempotent(name: CString)
    ensures BuildComPath(BuildComPath(Some(name))) == BuildComPath(Some(name))
  {
    var r := BuildComPath(Some(name)).value;
    BuildComPathHasPrefix(name);
    assert r[..Min(MaxPathLength, |r|)] == r;
  }
}
