/**
 * The entity records User and Role, the five properties every stored entity
 * shares (Id, UpdatedUser, CreatedAt, UpdatedAt, IsEnable), the property access
 * the controllers perform by reflection, the parameterless constructors and the
 * validation attributes on User and Role.
 */
module Entities {
  import opened Wrappers

  /** A Guid, as its 128-bit value; 0 is Guid.Empty. */
  newtype Guid = x: int | 0 <= x < 0x1_0000_0000_0000_0000_0000_0000_0000_0000

  const EmptyGuid: Guid := 0

  /** A DateTime, as its tick count. */
  type Time = int

  /** A string property: None is a null reference. */
  type Text = Option<string>

  datatype Kind = UserKind | RoleKind

  /** A stored record. Both kinds carry the shared properties under the same names. */
  datatype Entity =
    | User(id: Guid, account: Text, password: Text, name: Text, email: Text, phone: Text,
           isEnable: bool, createdAt: Time, updatedAt: Time, updatedUser: Guid)
    | Role(id: Guid, name: Text, isEnable: bool, createdAt: Time, updatedAt: Time, updatedUser: Guid)

  function KindOf(e: Entity): Kind {
    if e.User? then UserKind else RoleKind
  }

  // ---------------------------------------------------------------------------
  // Properties, as reflection sees them
  // ---------------------------------------------------------------------------

  datatype Field = Id | Account | Password | Name | Email | Phone | IsEnable | CreatedAt | UpdatedAt | UpdatedUser

  datatype FieldType = StringType | BoolType | TimeType | GuidType

  /** A property value as reflection hands it out or takes it in. Str(None) is null. */
  datatype Value = Str(str: Text) | Flag(flag: bool) | Instant(instant: Time) | Uuid(uuid: Guid)

  /** The declared name of each property. */
  function PropertyName(f: Field): string {
    match f
    case Id => "Id"
    case Account => "Account"
    case Password => "Password"
    case Name => "Name"
    case Email => "Email"
    case Phone => "Phone"
    case IsEnable => "IsEnable"
    case CreatedAt => "CreatedAt"
    case UpdatedAt => "UpdatedAt"
    case UpdatedUser => "UpdatedUser"
  }

  /** Type.GetProperty(name): the property with exactly that (case-sensitive) name, if any. */
  function FieldNamed(name: string): (r: Option<Field>)
    ensures r.Some? ==> PropertyName(r.value) == name
  {
    if name == "Id" then Some(Id)
    else if name == "Account" then Some(Account)
    else if name == "Password" then Some(Password)
    else if name == "Name" then Some(Name)
    else if name == "Email" then Some(Email)
    else if name == "Phone" then Some(Phone)
    else if name == "IsEnable" then Some(IsEnable)
    else if name == "CreatedAt" then Some(CreatedAt)
    else if name == "UpdatedAt" then Some(UpdatedAt)
    else if name == "UpdatedUser" then Some(UpdatedUser)
    else None
  }

  /** Every property is found under its own name. */
  lemma FieldNamedFinds(f: Field)
    ensures FieldNamed(PropertyName(f)) == Some(f)
  {
    match f
    case Id =>
    case Account =>
    case Password =>
    case Name =>
    case Email =>
    case Phone =>
    case IsEnable =>
    case CreatedAt =>
    case UpdatedAt =>
    case UpdatedUser =>
  }

  /** Role declares only the shared properties and Name; User declares all ten. */
  predicate HasField(k: Kind, f: Field) {
    k == UserKind || !(f == Account || f == Password || f == Email || f == Phone)
  }

  /** The property of entity kind k named name, if k declares one. */
  function Property(k: Kind, name: string): (r: Option<Field>)
    ensures r.Some? <==> exists f :: HasField(k, f) && PropertyName(f) == name
    ensures r.Some? ==> HasField(k, r.value) && PropertyName(r.value) == name
  {
    var f := FieldNamed(name);
    if f.Some? && HasField(k, f.value) then f else None
  }

  function TypeOf(f: Field): FieldType {
    match f
    case Id => GuidType
    case UpdatedUser => GuidType
    case IsEnable => BoolType
    case CreatedAt => TimeType
    case UpdatedAt => TimeType
    case _ => StringType
  }

  /** Whether PropertyInfo.SetValue accepts v for a property of type t (null only for strings). */
  predicate Fits(v: Value, t: FieldType) {
    match t
    case StringType => v.Str?
    case BoolType => v.Flag?
    case TimeType => v.Instant?
    case GuidType => v.Uuid?
  }

  /** PropertyInfo.GetValue: None when the entity's type has no such property. */
  function Get(e: Entity, f: Field): (r: Option<Value>)
    ensures r.Some? <==> HasField(KindOf(e), f)
    ensures r.Some? ==> Fits(r.value, TypeOf(f))
  {
    match f
    case Id => Some(Uuid(e.id))
    case Account => if e.User? then Some(Str(e.account)) else None
    case Password => if e.User? then Some(Str(e.password)) else None
    case Name => Some(Str(e.name))
    case Email => if e.User? then Some(Str(e.email)) else None
    case Phone => if e.User? then Some(Str(e.phone)) else None
    case IsEnable => Some(Flag(e.isEnable))
    case CreatedAt => Some(Instant(e.createdAt))
    case UpdatedAt => Some(Instant(e.updatedAt))
    case UpdatedUser => Some(Uuid(e.updatedUser))
  }

  /**
   * A property write as the controller and the JSON Patch conversion perform it:
   * writes v into property f and nothing else. None when the entity has no such
   * property or v is not of the property's type. PropertyInfo.SetValue itself
   * would store the default for a null written to a Guid, bool or DateTime
   * property; no path of the controllers passes such a null, because the JSON
   * Patch conversion refuses null for those types before any write.
   */
  function Set(e: Entity, f: Field, v: Value): (r: Option<Entity>)
    ensures r.Some? <==> HasField(KindOf(e), f) && Fits(v, TypeOf(f))
    ensures r.Some? ==> KindOf(r.value) == KindOf(e) && Get(r.value, f) == Some(v)
    ensures r.Some? ==> forall g :: g != f ==> Get(r.value, g) == Get(e, g)
  {
    if !HasField(KindOf(e), f) || !Fits(v, TypeOf(f)) then None
    else
      Some(match f
        case Id => e.(id := v.uuid)
        case Account => e.(account := v.str)
        case Password => e.(password := v.str)
        case Name => e.(name := v.str)
        case Email => e.(email := v.str)
        case Phone => e.(phone := v.str)
        case IsEnable => e.(isEnable := v.flag)
        case CreatedAt => e.(createdAt := v.instant)
        case UpdatedAt => e.(updatedAt := v.instant)
        case UpdatedUser => e.(updatedUser := v.uuid))
  }

  /** An entity is determined by its kind and the values of its properties. */
  lemma SameFieldsSameEntity(a: Entity, b: Entity)
    requires KindOf(a) == KindOf(b)
    requires forall f :: Get(a, f) == Get(b, f)
    ensures a == b
  {
    assert Get(a, Id) == Get(b, Id);
    assert Get(a, Name) == Get(b, Name);
    assert Get(a, IsEnable) == Get(b, IsEnable);
    assert Get(a, CreatedAt) == Get(b, CreatedAt);
    assert Get(a, UpdatedAt) == Get(b, UpdatedAt);
    assert Get(a, UpdatedUser) == Get(b, UpdatedUser);
    if a.User? {
      assert Get(a, Account) == Get(b, Account);
      assert Get(a, Password) == Get(b, Password);
      assert Get(a, Email) == Get(b, Email);
      assert Get(a, Phone) == Get(b, Phone);
    }
  }

  // ---------------------------------------------------------------------------
  // Parameterless constructors (Model/User.cs, Model/Role.cs)
  // ---------------------------------------------------------------------------

  /**
   * new User(): enabled, CreatedAt and UpdatedAt from two separate reads of the
   * clock (createdNow, then updatedNow), every other property at its CLR default.
   */
  function NewUser(createdNow: Time, updatedNow: Time): (u: Entity)
    ensures KindOf(u) == UserKind
    ensures u.isEnable && u.createdAt == createdNow && u.updatedAt == updatedNow
    ensures u.id == EmptyGuid && u.updatedUser == EmptyGuid
    ensures u.account.None? && u.password.None? && u.name.None? && u.email.None? && u.phone.None?
  {
    User(EmptyGuid, None, None, None, None, None, true, createdNow, updatedNow, EmptyGuid)
  }

  /**
   * new Role(): enabled, CreatedAt and UpdatedAt from two separate reads of the
   * clock (createdNow, then updatedNow), every other property at its CLR default.
   */
  function NewRole(createdNow: Time, updatedNow: Time): (r: Entity)
    ensures KindOf(r) == RoleKind
    ensures r.isEnable && r.createdAt == createdNow && r.updatedAt == updatedNow
    ensures r.id == EmptyGuid && r.updatedUser == EmptyGuid && r.name.None?
  {
    Role(EmptyGuid, None, true, createdNow, updatedNow, EmptyGuid)
  }

  // ---------------------------------------------------------------------------
  // Validation attributes
  // ---------------------------------------------------------------------------

  /** char.IsWhiteSpace: the Unicode space, line and paragraph separators, U+0009..U+000D, U+0085 and U+00A0. */
  predicate IsWhiteSpace(c: char) {
    || c == ' ' || ('\t' <= c <= '\r') || c == '\U{85}' || c == '\U{A0}' || c == '\U{1680}'
    || ('\U{2000}' <= c <= '\U{200A}') || c == '\U{2028}' || c == '\U{2029}' || c == '\U{202F}'
    || c == '\U{205F}' || c == '\U{3000}'
  }

  /** string.IsNullOrWhiteSpace, scanning the characters in order. */
  function IsNullOrWhiteSpace(t: Text): (r: bool)
    ensures r <==> t.None? || forall i | 0 <= i < |t.value| :: IsWhiteSpace(t.value[i])
  {
    match t
    case None => true
    case Some(s) => AllWhiteSpace(s)
  }

  function AllWhiteSpace(s: string): (r: bool)
    ensures r <==> forall i | 0 <= i < |s| :: IsWhiteSpace(s[i])
  {
    if s == [] then true
    else IsWhiteSpace(s[0]) && AllWhiteSpace(s[1..])
  }

  /** [Required] on a string property: not null, not empty and not only white space. */
  predicate Required(t: Text) {
    !IsNullOrWhiteSpace(t)
  }

  /** The library behaviour the attributes rely on: .NET's \d class and the [EmailAddress] check. */
  datatype Validators = Validators(isDigit: char -> bool, isEmailAddress: string -> bool)

  /** The number of leading characters of s that are digits. */
  function LeadingDigits(s: string, isDigit: char -> bool): (n: nat)
    ensures n <= |s|
    ensures forall i | 0 <= i < n :: isDigit(s[i])
    ensures n < |s| ==> !isDigit(s[n])
  {
    if s == [] || !isDigit(s[0]) then 0 else 1 + LeadingDigits(s[1..], isDigit)
  }

  /**
   * Backtracking of the greedy \d{10,15} in ^\d{10,15}$: tries the lengths n,
   * n - 1, ..., 10 and keeps the first after which $ holds, that is, at the end
   * of s or just before a final '\n'.
   */
  function BacktrackTo(s: string, n: nat): (r: Option<nat>)
    ensures r.Some? ==> 10 <= r.value <= n
    ensures r.Some? ==> r.value == |s| || (r.value + 1 == |s| && s[r.value] == '\n')
    ensures n <= |s| && (n == |s| || (n + 1 == |s| && s[n] == '\n')) && 10 <= n ==> r == Some(n)
    decreases n
  {
    if n < 10 then None
    else if n == |s| || (n + 1 == |s| && n < |s| && s[n] == '\n') then Some(n)
    else BacktrackTo(s, n - 1)
  }

  /** The length of the match of ^\d{10,15}$ in s, if it matches (^ pins the match to offset 0). */
  function PhonePatternMatch(s: string, isDigit: char -> bool): (r: Option<nat>)
    ensures r.Some? ==> 10 <= r.value <= 15 && r.value <= |s|
    ensures r.Some? ==> forall i | 0 <= i < r.value :: isDigit(s[i])
  {
    var k := LeadingDigits(s, isDigit);
    BacktrackTo(s, if k < 15 then k else 15)
  }

  /**
   * [RegularExpression(@"^\d{10,15}$")] on Phone: null and "" are valid; any other
   * string must be matched by the pattern in its entirety.
   */
  predicate ValidPhone(phone: Text, isDigit: char -> bool) {
    phone.None? || phone.value == "" ||
    (var m := PhonePatternMatch(phone.value, isDigit); m.Some? && m.value == |phone.value|)
  }

  /** A non-empty phone number is valid exactly when it is 10 to 15 digits and nothing else. */
  lemma ValidPhoneIff(s: string, isDigit: char -> bool)
    requires s != ""
    ensures ValidPhone(Some(s), isDigit) <==> 10 <= |s| <= 15 && forall i | 0 <= i < |s| :: isDigit(s[i])
  {
    if 10 <= |s| <= 15 && forall i | 0 <= i < |s| :: isDigit(s[i]) {
      var k := LeadingDigits(s, isDigit);
      assert k == |s|;
    }
  }

  /** The attributes on User: four required strings, an e-mail address and an optional phone number. */
  predicate ValidUser(u: Entity, lib: Validators)
    requires u.User?
  {
    && Required(u.account)
    && Required(u.password)
    && Required(u.name)
    && Required(u.email)
    && (u.email.None? || lib.isEmailAddress(u.email.value))
    && ValidPhone(u.phone, lib.isDigit)
  }

  /** The attribute on Role: Name is required. */
  predicate ValidRole(r: Entity)
    requires r.Role?
    ensures ValidRole(r) <==> r.name.Some? && exists i | 0 <= i < |r.name.value| :: !IsWhiteSpace(r.name.value[i])
  {
    Required(r.name)
  }

  /**
   * What a valid User guarantees: Account, Password, Name and Email hold a
   * character other than white space, Email passes the address check, and Phone
   * is null, empty or 10 to 15 digits.
   */
  lemma ValidUserMeans(u: Entity, lib: Validators)
    requires u.User? && ValidUser(u, lib)
    ensures u.account.Some? && exists i | 0 <= i < |u.account.value| :: !IsWhiteSpace(u.account.value[i])
    ensures u.password.Some? && exists i | 0 <= i < |u.password.value| :: !IsWhiteSpace(u.password.value[i])
    ensures u.name.Some? && exists i | 0 <= i < |u.name.value| :: !IsWhiteSpace(u.name.value[i])
    ensures u.email.Some? && exists i | 0 <= i < |u.email.value| :: !IsWhiteSpace(u.email.value[i])
    ensures lib.isEmailAddress(u.email.value)
    ensures u.phone.None? || u.phone.value == "" ||
            (10 <= |u.phone.value| <= 15 && forall i | 0 <= i < |u.phone.value| :: lib.isDigit(u.phone.value[i]))
  {
    if u.phone.Some? && u.phone.value != "" {
      ValidPhoneIff(u.phone.value, lib.isDigit);
    }
  }

  /** A freshly constructed User or Role fails validation: its required strings are still null. */
  lemma ConstructedRecordsAreIncomplete(createdNow: Time, updatedNow: Time, lib: Validators)
    ensures !ValidUser(NewUser(createdNow, updatedNow), lib)
    ensures !ValidRole(NewRole(createdNow, updatedNow))
  {
  }
}
