# BaseDotNetCoreAPI: the generic CRUD controller and the Users controller

This is a model of the core of BaseDotNetCoreAPI, an ASP.NET Core Web API
template. Its core is the generic controller `BaseController<TEntity, TContext>`
and its instantiation `UsersController`, together with the `User` and `Role`
records they store.

`BaseController` offers seven operations over one entity set:

- search by a property named at run time (`GetByField`);
- fetch by Id (`GetById`);
- create (`Create`);
- full update (`Update`);
- JSON Patch (`Patch`);
- delete (`Delete`);
- soft-disable (`Disable`).

It works on any entity type through reflection on property names. `UsersController` overrides three of them:

- Create and Update hash the password with SHA-256 and write the digest as lower-case hex.
- Patch refuses a patch document unless it has an operation whose path is `Password` and one whose path is `UpdatedUser`.

The model has five modules:

- `Wrappers` (`wrappers.dfy`): `Option`, the stand-in for a null reference.
- `Entities` (`entities.dfy`): the `User` and `Role` records as one `Entity` datatype.
  - Property access by name (`Type.GetProperty`, `PropertyInfo.GetValue`/`SetValue`) is modelled as `FieldNamed`, `Property`, `Get` and `Set`.
  - It also holds the parameterless constructors and the validation attributes (`[Required]`, `[EmailAddress]`, `[RegularExpression(@"^\d{10,15}$")]`).
- `JsonPatch` (`json_patch.dfy`): the part of `JsonPatchDocument<T>.ApplyTo(entity, ModelState)` the controllers rely on.
  - Each operation writes its value into the property its path names.
  - Operations run in order.
  - An operation naming no property, or carrying a value of the wrong type, is recorded as an error and changes nothing.
- `Base` (`base_controller.dfy`): the `ApiResponse<T>` envelope, the HTTP replies, and `RestoreOldPropertyValue`.
  - Four functions give the record each mutation stores: `Created`, `Merged`, `Patched` and `Disabled`.
  - The class `BaseController` holds the entity set in two fields:
    - `table`, a map from Id to record;
    - `order`, the order in which the store lists the records.
- `Users` (`users_controller.dfy`):
  - UTF-8 encoding, `ComputeHash` and the hex encoding it builds;
  - the patch gate;
  - the class `UsersController`, which composes a `BaseController` and a SHA-256 function.

The model follows the code. Several consequences are worth stating, because a reader of the code could expect otherwise:

- The `UsersController.Patch` gate refuses a batch that has NO `Password` operation (Controller/UsersController.cs:53-57). A batch must therefore include a `Password` operation to get through, although the refusal's message at Controller/UsersController.cs:56 reads "password cannot be updated".
- A successful User patch stores the new password exactly as sent. It is not hashed, although the comment at Model/User.cs:22 says the property holds the password's hash.
- `Patch` may also overwrite `CreatedAt`.
- `UsersController.Update` hashes the password, but the generic `Update` then copies the stored password back. A User's password never changes through Update.
- `Create` sets only `Id` and `CreatedAt`. `UpdatedAt` is whatever the payload carried, so a new record need not have `CreatedAt == UpdatedAt`.
- `Disable` clears `IsEnable` and leaves `UpdatedAt` untouched.
- `GetByField` answers 500 when a record's property value is null. It also answers 500 when the search value is null and the set is non-empty: calling `ToString()` or `Contains(null)` throws, and the handler catches the exception.
- A patch that changes `Id` makes the save throw, because the key of a tracked entity cannot change. That exception is not caught, and the model answers `Unhandled`.
- A null patch document is a 400 in the generic `Patch`. In `UsersController.Patch` it throws, because the override reads `patchDoc.Operations` first.

Some inputs are parameters of the operations:

- the current time `now`;
- the fresh Guid `newId`;
- `conflict`, the outcome of `SaveChangesAsync` for the two actions that catch `DbUpdateConcurrencyException`, with the exception's message;
- the culture-dependent `ToString` of Guid and DateTime values (`Culture`);
- the .NET `\d` class and the `[EmailAddress]` check (`Validators`);
- the SHA-256 function.

## Model

| member | source | states |
|---|---|---|
| Entities.FieldNamed | Controller/BaseController.cs:44 | Looking a property up by name finds only the property with exactly that name |
| Entities.FieldNamedFinds | Controller/BaseController.cs:44 | Every property is found under its own declared name |
| Entities.Property | Controller/BaseController.cs:44-46 | A property is found exactly when the entity type declares one with that name. Role lacks Account, Password, Email and Phone |
| Entities.Get | Controller/BaseController.cs:225 | Reading a property succeeds exactly when the type declares it, and the value has the property's type |
| Entities.Set | Controller/BaseController.cs:222-226 | A property write, as the controller and the JSON Patch conversion perform it, succeeds exactly when the property is declared and the value fits its type. Afterwards it holds the value, and every other property is unchanged |
| Entities.SameFieldsSameEntity | Model/User.cs:14-38 | Two records of the same type with the same property values are the same record |
| Entities.NewUser | Model/User.cs:7-12 | A new User is enabled. CreatedAt and UpdatedAt hold two separate clock reads, so they need not be equal. Every other property is at its default: null strings, empty Guids |
| Entities.NewRole | Model/Role.cs:7-12 | A new Role is enabled. CreatedAt and UpdatedAt hold two separate clock reads, so they need not be equal. Its Name is null and its Guids are empty |
| Entities.IsNullOrWhiteSpace | Model/User.cs:18-29 | A string fails [Required] exactly when it is null or all of its characters are white space |
| Entities.LeadingDigits | Model/User.cs:31 | Gives the length of the longest prefix made of digits |
| Entities.BacktrackTo | Model/User.cs:31 | The backtracking length chosen is at least 10 and at most the greedy length. It ends the string or stands before a final newline, as `$` allows |
| Entities.PhonePatternMatch | Model/User.cs:31 | A match of the phone pattern is 10 to 15 digits at the start of the string |
| Entities.ValidPhoneIff | Model/User.cs:31-32 | A non-empty phone number is valid exactly when it consists of 10 to 15 digits and nothing else |
| Entities.ValidUserMeans | Model/User.cs:18-32 | In a valid User, Account, Password, Name and Email are non-null and hold a non-space character. Email passes the address check, and Phone is null, empty or 10 to 15 digits |
| Entities.ValidRole | Model/Role.cs:17-18 | A Role is valid exactly when its Name is non-null and holds a character other than white space |
| Entities.ConstructedRecordsAreIncomplete | Model/User.cs:7-12 | A freshly constructed User or Role fails validation |
| JsonPatch.Target | Controller/BaseController.cs:145 | A path designates only the property whose name it is, with or without a leading '/' |
| JsonPatch.TargetFinds | Controller/BaseController.cs:145 | A property's name designates that property, bare or with a leading '/' |
| JsonPatch.ApplyOp | Controller/BaseController.cs:145 | An operation applies exactly when its path names a property of the entity's type and its value fits that property |
| JsonPatch.ApplyTo | Controller/BaseController.cs:145 | Applying a batch never changes the entity's type |
| JsonPatch.ApplyToFailuresRec | Controller/BaseController.cs:145-148 | A batch records no error exactly when each operation, from the last back, applies |
| JsonPatch.ApplyToFailures | Controller/BaseController.cs:145-148 | A batch records no error exactly when every operation in it applies |
| JsonPatch.ApplyToUntouched | Controller/BaseController.cs:145 | A property no operation designates keeps its value |
| JsonPatch.ApplyToStep | Controller/BaseController.cs:145 | When the last operation applies, the property it designates holds its value, and every other property is as the earlier operations left it |
| JsonPatch.TargetsInit | Controller/BaseController.cs:145 | A property designated in a batch, but not by its last operation, is designated by an earlier operation |
| JsonPatch.ApplyToLastWins | Controller/BaseController.cs:145 | When all operations apply, a designated property holds the value of the last operation on it |
| Base.RestoreOldPropertyValue | Controller/BaseController.cs:216-229 | With no property of that name the record is unchanged. Otherwise that property receives the given value, or the old record's value when none is given, and nothing else changes |
| Base.CreatedFields | Controller/BaseController.cs:76-80 | Create sets Id to the fresh id and CreatedAt to now. Every other property, UpdatedAt included, is stored as supplied |
| Base.MergedFields | Controller/BaseController.cs:97-101 | Update stores the payload, except that CreatedAt and Password come from the stored record and UpdatedAt is now |
| Base.UpdateRestores | Controller/BaseController.cs:97-99 | The three restores Update performs turn the payload into exactly the merged record |
| Base.StampIsPatched | Controller/BaseController.cs:145-152 | Stamping UpdatedAt after the operations gives exactly the patched record |
| Base.PatchedFields | Controller/BaseController.cs:145-152 | A patched record has UpdatedAt = now. Each designated property holds its last operation's value, and every other property is unchanged |
| Base.PatchedPassword | Controller/BaseController.cs:145-152 | When a batch that applies designates Password, the patched User holds the string of the last Password operation |
| Base.DisabledFields | Controller/BaseController.cs:179-182 | Disable clears IsEnable and changes nothing else, UpdatedAt included. Disabling twice is the same as disabling once |
| Base.PatchAllOrNothing | Controller/BaseController.cs:135-161 | Either the table is unchanged and the reply is not a success, or every operation applied and the reply is a success. In the second case only the record under id was replaced, by its patched version, and it keeps its Id |
| Base.OccursContains | Controller/BaseController.cs:51 | An occurrence of the search string at any offset makes string.Contains succeed |
| Base.ContainsWitness | Controller/BaseController.cs:51 | When string.Contains succeeds, the search string occurs at the offset it stops at |
| Base.ContainsIff | Controller/BaseController.cs:51 | string.Contains holds exactly when the search string occurs at some offset |
| Base.Filter | Controller/BaseController.cs:50-51 | The query throws exactly when a value is null, or when the search is null and the set is non-empty. Otherwise the result keeps, in store order, exactly the records whose text contains the search |
| Base.Without | Controller/BaseController.cs:209 | Removing an id from the store order keeps exactly the other ids and keeps them distinct |
| Base.BaseController.Valid | Model/User.cs:14-16 | Each listed Id has its record stored under that Id, and no Id is listed twice: one record per key, as the [Key] Id declares |
| Base.BaseController.GetEntityById | Controller/BaseController.cs:190-200 | Lookup succeeds exactly when an id is given and stored, and then answers with that record. Otherwise it answers with the message for a missing id or for an unknown id |
| Base.BaseController.GetById | Controller/BaseController.cs:66-70 | Answers Ok with the stored record, or Ok with the no-match failure |
| Base.BaseController.GetByField | Controller/BaseController.cs:39-62 | A null or empty field name gives 400, and so does an unknown one. A null value gives 500, and so does a null search over a non-empty set. Otherwise the answer lists, in store order, exactly the matching records, and an empty result is 404 |
| Base.BaseController.Create | Controller/BaseController.cs:74-86 | Adds the created record under the fresh id at the end of the store order and answers with it |
| Base.BaseController.Update | Controller/BaseController.cs:90-112 | An unknown id changes nothing, and so does a concurrency failure, which answers its message. Otherwise the stored record becomes the merge of the payload into it |
| Base.BaseController.Patch | Controller/BaseController.cs:135-161 | Answers and changes the table as PatchResult says, and keeps the store order |
| Base.BaseController.Delete | Controller/BaseController.cs:165-169 | An unknown id changes nothing. Otherwise the record leaves both the table and the order, and the answer carries it |
| Base.BaseController.Disable | Controller/BaseController.cs:173-187 | An unknown id changes nothing. Otherwise the record is replaced by its disabled version, which the answer carries |
| Base.BaseController.RemoveEntity | Controller/BaseController.cs:203-213 | An unknown id fails with the no-match message. Otherwise the record is removed from the table and the order and returned |
| Users.Utf8 | Controller/UsersController.cs:73 | The UTF-8 encoding has one to four bytes per character, and ASCII text encodes to its own code units |
| Users.HexAppend | Controller/UsersController.cs:77-80 | Appending a byte appends its two hex digits |
| Users.HexShape | Controller/UsersController.cs:76-80 | The hex text has two characters per byte. Character 2i is byte i's high nibble and character 2i+1 its low nibble |
| Users.HexIsLowerHex | Controller/UsersController.cs:79 | Every character of the hex text is 0-9 or a-f |
| Users.UnhexHex | Controller/UsersController.cs:76-81 | Decoding the hex text gives back the bytes |
| Users.HexInjective | Controller/UsersController.cs:76-81 | Two byte strings have the same hex text exactly when they are equal |
| Users.ComputeHash | Controller/UsersController.cs:71-82 | Returns the hex text of the digest of the UTF-8 bytes of the input |
| Users.DigestText | Controller/UsersController.cs:71-82 | A 32-byte digest gives 64 lower-case hex characters that decode back to the digest. So it differs from any plaintext of another length |
| Users.AnyPath | Controller/UsersController.cs:53 | Holds exactly when some operation's path equals the given path |
| Users.PatchGate | Controller/UsersController.cs:52-68 | A batch passes exactly when it has a "Password" operation and an "UpdatedUser" operation. Without a "Password" operation it is refused as not updatable. With one but without an "UpdatedUser" operation it is refused for a missing modifier |
| Users.UserPatchGate | Controller/UsersController.cs:50-69 | A User patch changes the table only when the gate passes, the id is stored, every operation applies and no conflict occurs. A refused batch changes nothing and answers the gate's message |
| Users.UserPatchStoresPasswordAsSent | Controller/UsersController.cs:50-69 | A successful User patch stores the value of the last Password operation as it was sent, unhashed |
| Users.CreateStoresDigest | Controller/UsersController.cs:22-34 | User Create stores, in place of the password, 64 lower-case hex characters that decode to the SHA-256 digest. Every other property is what the generic Create stores |
| Users.HashingBeforeUpdateIsUndone | Controller/UsersController.cs:36-48 | Hashing the payload's password before the generic Update makes no difference, because the stored password is kept |
| Users.UsersController.Create | Controller/UsersController.cs:22-34 | A null password throws and stores nothing. Otherwise the hashed User is created under the fresh id |
| Users.UsersController.Update | Controller/UsersController.cs:36-48 | A null password throws. Otherwise the generic Update runs, and on success the stored password is unchanged |
| Users.UsersController.Patch | Controller/UsersController.cs:50-69 | Answers and changes the table as UserPatchResult says: a null document throws, then the gate runs, then the generic Patch |

## Left out

- The login controller, the JWT service and the login log are not part of this model. Nor are application start-up, the database context or the `IBaseController` interface.
- `RoleController` only instantiates the generic controller for Role. It is covered by `Base.BaseController` with `kind == RoleKind`.
- The database is a map plus a list order. Change tracking, the asynchronous calls and concurrent requests are not modelled.
- The model holds values, not objects. Aliasing between the tracked entity and the object the reply returns is not modelled.
- Store failures other than the concurrency conflict of Update and Patch are not modelled. Create, Delete and Disable do not catch them.
- The 500 message of GetByField is modelled as the fixed prefix alone. The exception text appended to it is left out.
- `Guid.NewGuid()` and `DateTime.UtcNow` are parameters (`newId`, `now`), and the fresh id is required to be unused. The constructors of User and Role read the clock twice and take the two instants as two parameters.
- Entities.Set: a null written to a Guid, bool or DateTime property is refused, whereas PropertyInfo.SetValue would store the type's default. No controller path writes such a null, because the JSON Patch conversion refuses it first.
- SHA-256 is a function parameter, not an implementation of the standard.
- The .NET `\d` class and the `[EmailAddress]` check are parameters (`Validators`).
- The culture-dependent text forms of Guid and DateTime are parameters (`Culture`).
- Model validation, which the framework runs before an action, is defined (`ValidUser`, `ValidRole`) but not applied to controller inputs.
- JsonPatch.ApplyTo: only replace-style operations on top-level properties, with exact property names, are modelled. Add, remove, move, copy and test, nested or indexed paths, the library's case-insensitive name matching and its JSON value conversion are left out.
- Base.BaseController.Patch: the ModelState error texts are represented by the list of operations that failed.
- Users.Utf8: strings are sequences of Unicode scalar values. A lone UTF-16 surrogate, which .NET would replace by U+FFFD, cannot occur.
