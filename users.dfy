/** The user serializers: profile updates that merge the validated fields into
    the stored user, and registration with a password confirmation. */
module Users {
  import opened Common
  import opened Media

  /** The fields a client may write through the user serializer. `id` and
      `email` are read-only and `profile_image_url` is computed, so none of them
      can appear in validated data. */
  datatype Attr = Username | FirstName | LastName | PhoneNumber | ProfileImage | Bio

  datatype Value = Text(text: string) | Null | File(file: ImageFile)

  /** The kind of value field validation lets through for each attribute. */
  predicate Fits(a: Attr, v: Value) {
    match a
    case Username | FirstName | LastName => v.Text?
    case PhoneNumber | Bio => v.Text? || v.Null?
    case ProfileImage => v.File? || v.Null?
  }

  /** Validated data is a dictionary: each attribute at most once, each value of its field's kind. */
  predicate WellFormed(data: seq<(Attr, Value)>) {
    && (forall i, j :: 0 <= i < j < |data| ==> data[i].0 != data[j].0)
    && (forall i :: 0 <= i < |data| ==> Fits(data[i].0, data[i].1))
  }

  /** `validated_data.get(a)`. */
  function Lookup(data: seq<(Attr, Value)>, a: Attr): (r: Option<Value>)
    ensures r.Some? ==> (a, r.value) in data
    ensures r.None? ==> forall i :: 0 <= i < |data| ==> data[i].0 != a
    decreases |data|
  {
    if data == [] then None
    else if data[|data| - 1].0 == a then Some(data[|data| - 1].1)
    else
      var r := Lookup(data[..|data| - 1], a);
      assert r.Some? ==> (a, r.value) in data[..|data| - 1];
      r
  }

  /** The stored user, as the serializer reads and writes it. */
  datatype Profile = Profile(
    id: nat,
    email: string,
    username: string,
    firstName: string,
    lastName: string,
    phoneNumber: Option<string>,
    profileImage: ImageFile,
    bio: Option<string>)

  /** Attribute `a` of a profile, as a value of validated data. */
  function Get(p: Profile, a: Attr): Value {
    match a
    case Username => Text(p.username)
    case FirstName => Text(p.firstName)
    case LastName => Text(p.lastName)
    case PhoneNumber => if p.phoneNumber.Some? then Text(p.phoneNumber.value) else Null
    case ProfileImage => File(p.profileImage)
    case Bio => if p.bio.Some? then Text(p.bio.value) else Null
  }

  /** `setattr(instance, a, v)` for any attribute but the image. */
  function Put(p: Profile, a: Attr, v: Value): (q: Profile)
    requires a != ProfileImage && Fits(a, v)
    ensures Get(q, a) == v
    ensures forall other :: other != a ==> Get(q, other) == Get(p, other)
    ensures q.id == p.id && q.email == p.email
  {
    match a
    case Username => p.(username := v.text)
    case FirstName => p.(firstName := v.text)
    case LastName => p.(lastName := v.text)
    case PhoneNumber => p.(phoneNumber := if v.Null? then None else Some(v.text))
    case Bio => p.(bio := if v.Null? then None else Some(v.text))
  }

  /** The image step: a supplied file replaces the image; absent or null keeps it. */
  function WithImage(p: Profile, data: seq<(Attr, Value)>): Profile {
    match Lookup(data, ProfileImage)
    case Some(File(f)) => p.(profileImage := f)
    case _ => p
  }

  /** The loop step: every other attribute, in dictionary order. */
  function SetFields(p: Profile, data: seq<(Attr, Value)>): Profile
    requires forall i :: 0 <= i < |data| ==> Fits(data[i].0, data[i].1)
    decreases |data|
  {
    if data == [] then p
    else
      var q := SetFields(p, data[..|data| - 1]);
      var (a, v) := data[|data| - 1];
      if a != ProfileImage then Put(q, a, v) else q
  }

  /** The profile `UserSerializer.update` leaves behind. */
  function Merge(p: Profile, data: seq<(Attr, Value)>): Profile
    requires WellFormed(data)
  {
    SetFields(WithImage(p, data), data)
  }

  lemma {:induction false} SetFieldsKeeps(p: Profile, data: seq<(Attr, Value)>)
    requires forall i :: 0 <= i < |data| ==> Fits(data[i].0, data[i].1)
    ensures SetFields(p, data).id == p.id && SetFields(p, data).email == p.email
    ensures SetFields(p, data).profileImage == p.profileImage
    decreases |data|
  {
    if data != [] {
      SetFieldsKeeps(p, data[..|data| - 1]);
    }
  }

  lemma {:induction false} SetFieldsUnlisted(p: Profile, data: seq<(Attr, Value)>, a: Attr)
    requires forall i :: 0 <= i < |data| ==> Fits(data[i].0, data[i].1)
    requires forall i :: 0 <= i < |data| ==> data[i].0 != a
    ensures Get(SetFields(p, data), a) == Get(p, a)
    decreases |data|
  {
    if data != [] {
      SetFieldsUnlisted(p, data[..|data| - 1], a);
    }
  }

  lemma {:induction false} SetFieldsListed(p: Profile, data: seq<(Attr, Value)>, k: nat)
    requires WellFormed(data)
    requires k < |data| && data[k].0 != ProfileImage
    ensures Get(SetFields(p, data), data[k].0) == data[k].1
    decreases |data|
  {
    if k < |data| - 1 {
      var prefix := data[..|data| - 1];
      assert prefix[k] == data[k];
      SetFieldsListed(p, prefix, k);
      assert data[|data| - 1].0 != data[k].0;
    }
  }

  /** `id` and `email` never change through the serializer. */
  lemma MergeKeepsReadOnly(p: Profile, data: seq<(Attr, Value)>)
    requires WellFormed(data)
    ensures Merge(p, data).id == p.id && Merge(p, data).email == p.email
  {
    SetFieldsKeeps(WithImage(p, data), data);
  }

  /** Fields not in the validated data keep their old value. */
  lemma MergeKeepsUnlisted(p: Profile, data: seq<(Attr, Value)>, a: Attr)
    requires WellFormed(data)
    requires Lookup(data, a).None?
    ensures Get(Merge(p, data), a) == Get(p, a)
  {
    if a == ProfileImage {
      SetFieldsKeeps(WithImage(p, data), data);
    } else {
      SetFieldsUnlisted(WithImage(p, data), data, a);
    }
  }

  /** Every supplied attribute other than the image overwrites its field. */
  lemma MergeOverwritesListed(p: Profile, data: seq<(Attr, Value)>, k: nat)
    requires WellFormed(data)
    requires k < |data| && data[k].0 != ProfileImage
    ensures Get(Merge(p, data), data[k].0) == data[k].1
  {
    SetFieldsListed(WithImage(p, data), data, k);
  }

  /** The image is replaced exactly when a file is supplied; absent or null keeps it. */
  lemma MergeImage(p: Profile, data: seq<(Attr, Value)>)
    requires WellFormed(data)
    ensures Lookup(data, ProfileImage).Some? && Lookup(data, ProfileImage).value.File? ==>
            Merge(p, data).profileImage == Lookup(data, ProfileImage).value.file
    ensures !(Lookup(data, ProfileImage).Some? && Lookup(data, ProfileImage).value.File?) ==>
            Merge(p, data).profileImage == p.profileImage
  {
    SetFieldsKeeps(WithImage(p, data), data);
  }

  /** A stored user whose fields the serializer updates in place. */
  class User {
    var id: nat
    var email: string
    var username: string
    var firstName: string
    var lastName: string
    var phoneNumber: Option<string>
    var profileImage: ImageFile
    var bio: Option<string>

    function Snapshot(): Profile
      reads this
    {
      Profile(id, email, username, firstName, lastName, phoneNumber, profileImage, bio)
    }

    constructor (p: Profile)
      ensures Snapshot() == p
    {
      id, email, username, firstName, lastName := p.id, p.email, p.username, p.firstName, p.lastName;
      phoneNumber, profileImage, bio := p.phoneNumber, p.profileImage, p.bio;
    }

    /** `UserSerializer.update`. `deleted` is the old image file it asks storage
        to delete, when it does. */
    method Update(data: seq<(Attr, Value)>) returns (deleted: Option<ImageFile>)
      requires WellFormed(data)
      modifies this
      ensures Snapshot() == Merge(old(Snapshot()), data)
      ensures deleted.Some? <==>
              Lookup(data, ProfileImage).Some? && Lookup(data, ProfileImage).value.File? && old(profileImage).Present()
      ensures deleted.Some? ==> deleted.value == old(profileImage)
    {
      deleted := None;
      var image := Lookup(data, ProfileImage);
      if image.Some? && !image.value.Null? {
        assert Fits(ProfileImage, image.value) by {
          var k :| 0 <= k < |data| && data[k] == (ProfileImage, image.value);
        }
        if profileImage.Present() {
          deleted := Some(profileImage);
          profileImage := NoImage;
        }
        profileImage := image.value.file;
      }
      ghost var start := Snapshot();
      assert start == WithImage(old(Snapshot()), data);
      var i := 0;
      while i < |data|
        invariant 0 <= i <= |data|
        invariant Snapshot() == SetFields(start, data[..i])
      {
        var (attr, value) := data[i];
        if attr != ProfileImage {
          match attr {
            case Username => username := value.text;
            case FirstName => firstName := value.text;
            case LastName => lastName := value.text;
            case PhoneNumber => phoneNumber := if value.Null? then None else Some(value.text);
            case Bio => bio := if value.Null? then None else Some(value.text);
          }
        }
        assert data[..i + 1][..i] == data[..i];
        i := i + 1;
      }
      assert data[..i] == data;
    }
  }

  // ---- registration

  /** The attributes of a registration request, once each field has been read.
      The field validators other than uniqueness (required keys, e-mail format,
      username characters and length, password strength) are taken to have
      passed. */
  datatype Registration = Registration(
    email: string,
    username: string,
    password: string,
    password2: string,
    firstName: Option<string>,
    lastName: Option<string>)

  /** `PasswordMismatch` is keyed `password`. `AlreadyTaken` is the unique-field
      validators' answer, one flag per field (`email`, `username`), reported
      together and before `validate` runs. */
  datatype RegisterError = PasswordMismatch | AlreadyTaken(email: bool, username: bool)

  /** Some stored user has exactly this e-mail. */
  predicate EmailTaken(stored: seq<Profile>, email: string) {
    exists i :: 0 <= i < |stored| && stored[i].email == email
  }

  /** Some stored user has exactly this username. */
  predicate UsernameTaken(stored: seq<Profile>, username: string) {
    exists i :: 0 <= i < |stored| && stored[i].username == username
  }

  /** `RegisterSerializer.validate`. */
  function ValidateRegistration(attrs: Registration): (r: Result<Registration, RegisterError>)
    ensures r.Failure? <==> attrs.password != attrs.password2
    ensures r.Success? ==> r.value == attrs
  {
    if attrs.password != attrs.password2 then Failure(PasswordMismatch) else Success(attrs)
  }

  /** The new user and the password handed to the framework for hashing. */
  datatype Account = Account(profile: Profile, password: string)

  /** The normalisations the framework's `create_user` applies before storing:
      the e-mail's domain is lower-cased and the username is Unicode-normalised.
      They are framework code, so the model leaves them uninterpreted. */
  datatype UserManager = UserManager(normalizeEmail: string -> string, normalizeUsername: string -> string)

  /** `RegisterSerializer.create`: the confirmation is dropped, missing names
      become empty, email and username are stored as `create_user` normalises
      them, and nothing else is set. */
  function CreateAccount(manager: UserManager, id: nat, attrs: Registration): (a: Account)
    ensures a.profile.id == id
    ensures a.profile.email == manager.normalizeEmail(attrs.email)
    ensures a.profile.username == manager.normalizeUsername(attrs.username)
    ensures attrs.firstName.Some? ==> a.profile.firstName == attrs.firstName.value
    ensures attrs.firstName.None? ==> a.profile.firstName == ""
    ensures attrs.lastName.Some? ==> a.profile.lastName == attrs.lastName.value
    ensures attrs.lastName.None? ==> a.profile.lastName == ""
    ensures a.profile.phoneNumber.None? && a.profile.bio.None? && !a.profile.profileImage.Present()
    ensures a.password == attrs.password
  {
    Account(
      Profile(id, manager.normalizeEmail(attrs.email), manager.normalizeUsername(attrs.username), attrs.firstName.GetOr(""), attrs.lastName.GetOr(""), None, NoImage, None),
      attrs.password)
  }

  /** A registration request against the users stored so far: the unique-field
      checks, then `validate`, then `create`. */
  function Register(manager: UserManager, stored: seq<Profile>, id: nat, attrs: Registration): (r: Result<Account, RegisterError>)
    ensures r.Failure? && r.error.AlreadyTaken? <==>
            EmailTaken(stored, attrs.email) || UsernameTaken(stored, attrs.username)
    ensures r.Failure? && r.error.AlreadyTaken? ==>
            r.error.email == EmailTaken(stored, attrs.email) && r.error.username == UsernameTaken(stored, attrs.username)
    ensures r == Failure(PasswordMismatch) <==>
            !EmailTaken(stored, attrs.email) && !UsernameTaken(stored, attrs.username)
            && attrs.password != attrs.password2
  {
    var emailTaken := EmailTaken(stored, attrs.email);
    var usernameTaken := UsernameTaken(stored, attrs.username);
    if emailTaken || usernameTaken then Failure(AlreadyTaken(emailTaken, usernameTaken))
    else
      match ValidateRegistration(attrs)
      case Failure(e) => Failure(e)
      case Success(valid) => Success(CreateAccount(manager, id, valid))
  }

  /** A registration succeeds exactly when neither the e-mail nor the username is
      taken and both passwords agree; the account then
      has the confirmed password, the normalised username and email, the given
      names (empty where none were given), and no phone number, bio or image. */
  lemma RegisterCreatesConfirmedAccount(manager: UserManager, stored: seq<Profile>, id: nat, attrs: Registration)
    ensures Register(manager, stored, id, attrs).Success? <==>
            !EmailTaken(stored, attrs.email) && !UsernameTaken(stored, attrs.username)
            && attrs.password == attrs.password2
    ensures Register(manager, stored, id, attrs).Success? ==>
            var acct := Register(manager, stored, id, attrs).value;
            && acct.password == attrs.password2
            && acct.profile.username == manager.normalizeUsername(attrs.username)
            && acct.profile.email == manager.normalizeEmail(attrs.email)
            && acct.profile.id == id
            && acct.profile.firstName == attrs.firstName.GetOr("")
            && acct.profile.lastName == attrs.lastName.GetOr("")
            && acct.profile.phoneNumber.None? && acct.profile.bio.None?
            && !acct.profile.profileImage.Present()
  {
  }

  /** Registering the same attributes again, once the first account is stored,
      is refused on the e-mail when normalisation left it as given, and on the
      username exactly when normalisation left that as given. */
  lemma RegisteringTwiceFails(manager: UserManager, stored: seq<Profile>, id: nat, id2: nat, attrs: Registration)
    requires Register(manager, stored, id, attrs).Success?
    requires manager.normalizeEmail(attrs.email) == attrs.email
    ensures var again := Register(manager, stored + [Register(manager, stored, id, attrs).value.profile], id2, attrs);
            again == Failure(AlreadyTaken(true, manager.normalizeUsername(attrs.username) == attrs.username))
  {
    var acct := Register(manager, stored, id, attrs).value;
    var more := stored + [acct.profile];
    assert more[|stored|] == acct.profile;
    assert EmailTaken(more, attrs.email);
    assert forall i :: 0 <= i < |stored| ==> more[i] == stored[i];
  }
}
