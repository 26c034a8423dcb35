/**
 * UsersController: the generic controller instantiated for User, with password
 * hashing before Create and Update, a gate on the paths of a patch batch, and
 * the SHA-256-to-lowercase-hex encoder ComputeHash.
 */
module Users {
  import opened Wrappers
  import opened Entities
  import opened JsonPatch
  import opened Base

  newtype byte = x: int | 0 <= x < 256

  /** A SHA-256 digest: 32 bytes. */
  type Digest = s: seq<byte> | |s| == 32 witness seq(32, _ => 0 as byte)

  // ---------------------------------------------------------------------------
  // Text to bytes and bytes to hex
  // ---------------------------------------------------------------------------

  /** Encoding.UTF8.GetBytes: each character as its one to four UTF-8 bytes. */
  function Utf8(s: string): (r: seq<byte>)
    ensures |s| <= |r| <= 4 * |s|
    ensures (forall i | 0 <= i < |s| :: s[i] < '\U{80}') ==> r == seq(|s|, i requires 0 <= i < |s| => s[i] as int as byte)
    decreases |s|
  {
    if s == [] then [] else Utf8Char(s[0]) + Utf8(s[1..])
  }

  function Utf8Char(c: char): seq<byte> {
    var n := c as int;
    if n < 0x80 then [n as byte]
    else if n < 0x800 then [(0xC0 + n / 0x40) as byte, (0x80 + n % 0x40) as byte]
    else if n < 0x10000 then
      [(0xE0 + n / 0x1000) as byte, (0x80 + n / 0x40 % 0x40) as byte, (0x80 + n % 0x40) as byte]
    else
      [(0xF0 + n / 0x40000) as byte, (0x80 + n / 0x1000 % 0x40) as byte,
       (0x80 + n / 0x40 % 0x40) as byte, (0x80 + n % 0x40) as byte]
  }

  /** The lower-case hex digit of d: 0-9, then a-f. */
  function HexDigit(d: nat): char
    requires d < 16
  {
    if d < 10 then ('0' as int + d) as char else ('a' as int + d - 10) as char
  }

  /** b.ToString("x2"): the high and the low nibble as lower-case hex digits. */
  function HexPair(b: byte): string {
    [HexDigit(b as int / 16), HexDigit(b as int % 16)]
  }

  /** The bytes in order, each as two lower-case hex digits. */
  function Hex(bytes: seq<byte>): string
    decreases |bytes|
  {
    if bytes == [] then "" else HexPair(bytes[0]) + Hex(bytes[1..])
  }

  /** Appending a byte appends its two digits: the step of ComputeHash's loop. */
  lemma {:induction false} HexAppend(bytes: seq<byte>, b: byte)
    ensures Hex(bytes + [b]) == Hex(bytes) + HexPair(b)
    decreases |bytes|
  {
    if bytes == [] {
      assert bytes + [b] == [b];
      assert Hex([b]) == HexPair(b) + Hex([]);
    } else {
      assert (bytes + [b])[0] == bytes[0];
      assert (bytes + [b])[1..] == bytes[1..] + [b];
      HexAppend(bytes[1..], b);
    }
  }

  /** The hex text has two characters per byte: character 2i is the high nibble of byte i, 2i + 1 the low. */
  lemma {:induction false} HexShape(bytes: seq<byte>)
    ensures |Hex(bytes)| == 2 * |bytes|
    ensures forall i | 0 <= i < |bytes| ::
              Hex(bytes)[2 * i] == HexDigit(bytes[i] as int / 16) &&
              Hex(bytes)[2 * i + 1] == HexDigit(bytes[i] as int % 16)
    decreases |bytes|
  {
    if bytes != [] {
      HexShape(bytes[1..]);
      var h := Hex(bytes);
      assert h == HexPair(bytes[0]) + Hex(bytes[1..]);
      forall i | 1 <= i < |bytes|
        ensures h[2 * i] == HexDigit(bytes[i] as int / 16) && h[2 * i + 1] == HexDigit(bytes[i] as int % 16)
      {
        assert bytes[i] == bytes[1..][i - 1];
        assert h[2 * i] == Hex(bytes[1..])[2 * (i - 1)];
        assert h[2 * i + 1] == Hex(bytes[1..])[2 * (i - 1) + 1];
      }
    }
  }

  predicate IsLowerHex(c: char) {
    '0' <= c <= '9' || 'a' <= c <= 'f'
  }

  /** Every character of the hex text is one of 0-9 and a-f. */
  lemma HexIsLowerHex(bytes: seq<byte>)
    ensures forall k | 0 <= k < |Hex(bytes)| :: IsLowerHex(Hex(bytes)[k])
  {
    HexShape(bytes);
    forall k | 0 <= k < |Hex(bytes)| ensures IsLowerHex(Hex(bytes)[k]) {
      var i := k / 2;
      assert k == 2 * i || k == 2 * i + 1;
    }
  }

  /** The value of a lower-case hex digit. */
  function DigitValue(c: char): (d: nat)
    requires IsLowerHex(c)
    ensures d < 16 && HexDigit(d) == c
  {
    if c <= '9' then c as int - '0' as int else c as int - 'a' as int + 10
  }

  /** Decodes lower-case hex text of even length back to bytes. */
  function Unhex(s: string): seq<byte>
    requires |s| % 2 == 0
    requires forall k | 0 <= k < |s| :: IsLowerHex(s[k])
    decreases |s|
  {
    if s == [] then [] else [(DigitValue(s[0]) * 16 + DigitValue(s[1])) as byte] + Unhex(s[2..])
  }

  /** Decoding the hex text gives back the bytes. */
  lemma {:induction false} UnhexHex(bytes: seq<byte>)
    ensures |Hex(bytes)| % 2 == 0 && forall k | 0 <= k < |Hex(bytes)| :: IsLowerHex(Hex(bytes)[k])
    ensures Unhex(Hex(bytes)) == bytes
    decreases |bytes|
  {
    HexShape(bytes);
    HexIsLowerHex(bytes);
    if bytes != [] {
      UnhexHex(bytes[1..]);
      var h := Hex(bytes);
      assert h[2..] == Hex(bytes[1..]);
      var b := bytes[0] as int;
      assert h[0] == HexDigit(b / 16) && h[1] == HexDigit(b % 16);
      assert DigitValue(h[0]) == b / 16 && DigitValue(h[1]) == b % 16;
    }
  }

  /** Different byte strings have different hex texts. */
  lemma HexInjective(a: seq<byte>, b: seq<byte>)
    ensures Hex(a) == Hex(b) <==> a == b
  {
    if Hex(a) == Hex(b) {
      UnhexHex(a);
      UnhexHex(b);
    }
  }

  /**
   * ComputeHash(input, algorithm): hashes the UTF-8 bytes of input and appends
   * each byte of the digest, in order, as two lower-case hex digits.
   */
  method ComputeHash(input: string, algorithm: seq<byte> -> seq<byte>) returns (r: string)
    ensures r == Hex(algorithm(Utf8(input)))
  {
    var inputBytes := Utf8(input);
    var hashBytes := algorithm(inputBytes);
    var builder := "";
    var i := 0;
    while i < |hashBytes|
      invariant 0 <= i <= |hashBytes|
      invariant builder == Hex(hashBytes[..i])
    {
      assert hashBytes[..i + 1] == hashBytes[..i] + [hashBytes[i]];
      HexAppend(hashBytes[..i], hashBytes[i]);
      builder := builder + HexPair(hashBytes[i]);
      i := i + 1;
    }
    assert hashBytes[..i] == hashBytes;
    r := builder;
  }

  /**
   * A SHA-256 password text is 64 characters of 0-9 and a-f that decode to the
   * digest; so it is never a plaintext password of another length.
   */
  lemma DigestText(digest: seq<byte>, plaintext: string)
    requires |digest| == 32
    ensures |Hex(digest)| == 64
    ensures forall k | 0 <= k < 64 :: IsLowerHex(Hex(digest)[k])
    ensures Unhex(Hex(digest)) == digest
    ensures |plaintext| != 64 ==> Hex(digest) != plaintext
  {
    HexShape(digest);
    UnhexHex(digest);
  }

  // ---------------------------------------------------------------------------
  // The patch gate
  // ---------------------------------------------------------------------------

  const PasswordNotUpdatable := "無法更新密碼"
  const ModifierMissing := "缺少欄位: 修改人資訊"

  /** Operations.Any(o => o.path == path). */
  function AnyPath(ops: seq<PatchOp>, path: string): (r: bool)
    ensures r <==> exists i | 0 <= i < |ops| :: ops[i].path == path
    decreases |ops|
  {
    if ops == [] then false
    else ops[0].path == path || AnyPath(ops[1..], path)
  }

  /**
   * The gate in front of the generic Patch: a batch without an operation whose
   * path is exactly "Password" is refused, then one without an operation whose
   * path is exactly "UpdatedUser"; None lets the batch through.
   */
  function PatchGate(ops: seq<PatchOp>): (r: Option<string>)
    ensures r.None? <==>
              (exists i | 0 <= i < |ops| :: ops[i].path == "Password") &&
              (exists j | 0 <= j < |ops| :: ops[j].path == "UpdatedUser")
    ensures r == Some(PasswordNotUpdatable) <==> forall i | 0 <= i < |ops| :: ops[i].path != "Password"
    ensures r == Some(ModifierMissing) <==>
              (exists i | 0 <= i < |ops| :: ops[i].path == "Password") &&
              (forall j | 0 <= j < |ops| :: ops[j].path != "UpdatedUser")
  {
    if !AnyPath(ops, "Password") then Some(PasswordNotUpdatable)
    else if AnyPath(ops, "UpdatedUser") then None
    else Some(ModifierMissing)
  }

  /** What UsersController.Patch(id, patchDoc) answers and what the table becomes. */
  function UserPatchResult(table: map<Guid, Entity>, id: Guid, patchDoc: Option<seq<PatchOp>>, now: Time,
                           conflict: Option<string>): (Reply<ApiResponse<Entity>>, map<Guid, Entity>)
  {
    if patchDoc.None? then (Unhandled, table)
    else
      match PatchGate(patchDoc.value)
      case Some(message) => (Ok(ApiResponse(false, None, message)), table)
      case None => PatchResult(table, id, patchDoc, now, conflict)
  }

  /**
   * A User patch changes the table only when the batch has a "Password" and an
   * "UpdatedUser" operation, the id is stored, every operation applies and the
   * store accepts the write; the gate refuses before the id is looked up.
   */
  lemma UserPatchGate(table: map<Guid, Entity>, id: Guid, patchDoc: Option<seq<PatchOp>>, now: Time,
                      conflict: Option<string>)
    ensures var (r, after) := UserPatchResult(table, id, patchDoc, now, conflict);
            || (after == table && !(r.Ok? && r.body.success))
            || (&& r == Ok(ApiResponse(true, None, ""))
                && patchDoc.Some? && PatchGate(patchDoc.value).None? && id in table && conflict.None?
                && (forall i | 0 <= i < |patchDoc.value| :: Applicable(KindOf(table[id]), patchDoc.value[i]))
                && after == table[id := Patched(table[id], patchDoc.value, now)])
    ensures patchDoc.Some? && PatchGate(patchDoc.value).Some? ==>
              UserPatchResult(table, id, patchDoc, now, conflict) ==
                (Ok(ApiResponse(false, None, PatchGate(patchDoc.value).value)), table)
  {
    if patchDoc.Some? && PatchGate(patchDoc.value).None? {
      PatchAllOrNothing(table, id, patchDoc, now, conflict);
    }
  }

  /**
   * A User patch that succeeds stores, as the password, the value of the batch's
   * last operation on Password as it was sent: it is not hashed.
   */
  lemma UserPatchStoresPasswordAsSent(table: map<Guid, Entity>, id: Guid, ops: seq<PatchOp>, now: Time,
                                      conflict: Option<string>)
    requires id in table && KindOf(table[id]) == UserKind
    ensures var (r, after) := UserPatchResult(table, id, Some(ops), now, conflict);
            r.Ok? && r.body.success ==>
              && Targets(ops, Password)
              && LastValue(ops, Password).Str?
              && id in after && after[id].User?
              && after[id].password == LastValue(ops, Password).str
  {
    var (r, after) := UserPatchResult(table, id, Some(ops), now, conflict);
    if r.Ok? && r.body.success {
      UserPatchGate(table, id, Some(ops), now, conflict);
      var i :| 0 <= i < |ops| && ops[i].path == "Password";
      TargetFinds(Password);
      PatchedPassword(table[id], ops, now);
    }
  }

  // ---------------------------------------------------------------------------
  // Create and Update with hashing
  // ---------------------------------------------------------------------------

  /** The payload with Password replaced by the hex text of the digest of its UTF-8 bytes. */
  function WithHashedPassword(user: Entity, algorithm: seq<byte> -> seq<byte>): Entity
    requires user.User? && user.password.Some?
  {
    user.(password := Some(Hex(algorithm(Utf8(user.password.value)))))
  }

  /**
   * User Create stores a 64-character lower-case hex SHA-256 text in place of
   * the password; every other property is what the generic Create stores.
   */
  lemma CreateStoresDigest(user: Entity, id: Guid, now: Time, sha256: seq<byte> -> seq<byte>)
    requires user.User? && user.password.Some?
    requires |sha256(Utf8(user.password.value))| == 32
    ensures var stored := Created(WithHashedPassword(user, sha256), id, now);
            && stored.password.Some? && |stored.password.value| == 64
            && (forall k | 0 <= k < 64 :: IsLowerHex(stored.password.value[k]))
            && Unhex(stored.password.value) == sha256(Utf8(user.password.value))
            && (|user.password.value| != 64 ==> stored.password != user.password)
            && (forall f | f != Password :: Get(stored, f) == Get(Created(user, id, now), f))
  {
    DigestText(sha256(Utf8(user.password.value)), user.password.value);
  }

  /** Hashing the payload's password before Update makes no difference: Update restores the stored one. */
  lemma HashingBeforeUpdateIsUndone(stored: Entity, user: Entity, now: Time, algorithm: seq<byte> -> seq<byte>)
    requires user.User? && user.password.Some? && stored.User?
    ensures Merged(stored, WithHashedPassword(user, algorithm), now) == Merged(stored, user, now)
    ensures Merged(stored, user, now).password == stored.password
  {
  }

  class UsersController {
    /** The generic controller instantiated for User. */
    const base: BaseController
    /** The SHA-256 algorithm the controller hashes passwords with. */
    const sha256: seq<byte> -> Digest

    ghost predicate Valid()
      reads this, base
    {
      base.Valid() && base.kind == UserKind
    }

    constructor(base: BaseController, sha256: seq<byte> -> Digest)
      requires base.Valid() && base.kind == UserKind
      ensures Valid() && this.base == base && this.sha256 == sha256
    {
      this.base := base;
      this.sha256 := sha256;
    }

    /**
     * Create hashes the password and hands the User to the generic Create; a
     * null password throws before anything is stored.
     */
    method Create(user: Entity, newId: Guid, now: Time) returns (r: Reply<ApiResponse<Entity>>)
      requires Valid() && user.User? && newId !in base.table
      modifies base
      ensures Valid()
      ensures user.password.None? ==>
                r == Unhandled && base.table == old(base.table) && base.order == old(base.order)
      ensures user.password.Some? ==>
                var stored := Created(WithHashedPassword(user, sha256), newId, now);
                && base.table == old(base.table)[newId := stored]
                && base.order == old(base.order) + [newId]
                && r == Ok(ApiResponse(true, Some(stored), ""))
    {
      if user.password.None? {
        // Encoding.UTF8.GetBytes(null) throws.
        return Unhandled;
      }
      var hash := ComputeHash(user.password.value, sha256);
      var hashed := user.(password := Some(hash));
      r := base.Create(hashed, newId, now);
    }

    /**
     * Update hashes the password and hands the User to the generic Update, which
     * puts the stored password back: the stored password never changes.
     */
    method Update(user: Entity, now: Time, conflict: Option<string>) returns (r: Reply<ApiResponse<Entity>>)
      requires Valid() && user.User?
      modifies base
      ensures Valid() && base.order == old(base.order)
      ensures user.password.None? ==> r == Unhandled && base.table == old(base.table)
      ensures user.password.Some? && user.id !in old(base.table) ==>
                base.table == old(base.table) && r == Ok(ApiResponse(false, None, NoMatchingRecord))
      ensures user.password.Some? && user.id in old(base.table) && conflict.Some? ==>
                base.table == old(base.table) && r == Ok(ApiResponse(false, None, conflict.value))
      ensures user.password.Some? && user.id in old(base.table) && conflict.None? ==>
                && base.table == old(base.table)[user.id := Merged(old(base.table)[user.id], user, now)]
                && base.table[user.id].password == old(base.table)[user.id].password
                && r == Ok(ApiResponse(true, None, ""))
    {
      if user.password.None? {
        // Encoding.UTF8.GetBytes(null) throws.
        return Unhandled;
      }
      var hash := ComputeHash(user.password.value, sha256);
      var hashed := user.(password := Some(hash));
      if user.id in base.table {
        HashingBeforeUpdateIsUndone(base.table[user.id], user, now, sha256);
      }
      r := base.Update(hashed, now, conflict);
    }

    /**
     * Patch checks the batch's paths before anything else and only then hands it
     * to the generic Patch; a null document throws.
     */
    method Patch(id: Guid, patchDoc: Option<seq<PatchOp>>, now: Time, conflict: Option<string>)
      returns (r: Reply<ApiResponse<Entity>>)
      requires Valid()
      modifies base
      ensures Valid() && base.order == old(base.order)
      ensures (r, base.table) == UserPatchResult(old(base.table), id, patchDoc, now, conflict)
    {
      if patchDoc.None? {
        // patchDoc.Operations on a null document throws.
        return Unhandled;
      }
      var hasPassword := AnyPath(patchDoc.value, "Password");
      if !hasPassword {
        return Ok(ApiResponse(false, None, PasswordNotUpdatable));
      }
      var hasUpdatedUser := AnyPath(patchDoc.value, "UpdatedUser");
      if hasUpdatedUser {
        r := base.Patch(id, patchDoc, now, conflict);
      } else {
        r := Ok(ApiResponse(false, None, ModifierMissing));
      }
    }
  }
}
