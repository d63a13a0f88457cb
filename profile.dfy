/**
 * Profile editing: who may open and save whose profile (the user themself or
 * an administrator), how the optional text fields are normalised, and which
 * profile photos are accepted and where an accepted one is recorded.
 */
module ProfileController {
  import opened Wrappers
  import opened Text
  import opened Entities
  import opened Schema

  // ---------------------------------------------------------------------------
  // Authorization
  // ---------------------------------------------------------------------------

  /** Self or administrator: the check both `Edit` actions make first. */
  predicate MayEdit(p: Principal, targetId: UserId)
    ensures targetId == p.id ==> MayEdit(p, targetId)
    ensures !IsAdmin(p) ==> (MayEdit(p, targetId) <==> targetId == p.id)
    ensures IsAdmin(p) ==> MayEdit(p, targetId)
  {
    targetId == p.id || IsAdmin(p)
  }

  /** The GET target: a missing or blank id means the caller. */
  function TargetOf(p: Principal, id: Option<string>): (r: UserId)
    ensures IsNullOrWhiteSpace(id) ==> r == p.id
    ensures !IsNullOrWhiteSpace(id) ==> r == id.value
  {
    if IsNullOrWhiteSpace(id) then p.id else id.value
  }

  /** The form the GET `Edit` fills in. */
  datatype ProfileForm = ProfileForm(
    userId: UserId,
    email: string,
    firstName: Option<string>,
    lastName: Option<string>,
    phoneNumber: Option<string>,
    currentPhotoPath: Option<string>)

  function FormOf(u: ApplicationUser): ProfileForm {
    ProfileForm(u.id, u.email, u.firstName, u.lastName, u.phoneNumber, u.profileImagePath)
  }

  /** `Edit` (GET): a non-administrator asking for someone else is refused before
      the lookup; an unknown target is not found; otherwise the target's form. */
  function EditForm(users: seq<ApplicationUser>, p: Principal, id: Option<string>): (r: Result<ProfileForm, Outcome>)
    ensures r == Failure(Forbid) <==> !MayEdit(p, TargetOf(p, id))
    ensures r == Failure(NotFound) <==> MayEdit(p, TargetOf(p, id)) && TargetOf(p, id) !in UserIds(users)
    ensures r.Success? ==> r.value.userId == TargetOf(p, id) && exists u | u in users :: r.value == FormOf(u)
  {
    var target := TargetOf(p, id);
    if !MayEdit(p, target) then Failure(Forbid)
    else match FindUser(users, target)
      case None => Failure(NotFound)
      case Some(i) => Success(FormOf(users[i]))
  }

  /** A user always reaches their own form with no id given, whatever their roles. */
  lemma OwnFormWithoutId(users: seq<ApplicationUser>, p: Principal)
    requires p.id in UserIds(users)
    ensures EditForm(users, p, None).Success?
    ensures EditForm(users, p, Some("")).Success?
    ensures EditForm(users, p, None).value.userId == p.id
  {
    assert IsNullOrWhiteSpace(Some(""));
  }

  // ---------------------------------------------------------------------------
  // Field normalisation and photo validation
  // ---------------------------------------------------------------------------

  /** `string.IsNullOrWhiteSpace(x) ? null : x.Trim()`. */
  function NullIfBlank(x: Option<string>): (r: Option<string>)
    ensures r.None? <==> IsNullOrWhiteSpace(x)
    ensures r.Some? ==> IsTrimmedText(r.value) && r.value == Trim(x.value)
  {
    if IsNullOrWhiteSpace(x) then None else Some(Trim(x.value))
  }

  /** Normalising an already normalised field changes nothing. */
  lemma NullIfBlankIdempotent(x: Option<string>)
    ensures NullIfBlank(NullIfBlank(x)) == NullIfBlank(x)
  {
    if NullIfBlank(x).Some? {
      var t := NullIfBlank(x).value;
      TrimmedTextIsFixedPoint(t);
      assert !IsBlank(t) by {
        assert !IsWhiteSpace(t[0]);
      }
    }
  }

  /** The uploaded file as the form binds it. */
  datatype Upload = Upload(fileName: string, length: nat)

  /** The extensions the photo allowlist holds (compared ignoring case). */
  const AllowedExtensions: set<string> := {".jpg", ".jpeg", ".png", ".webp"}

  /** The largest accepted photo: 2 MiB. */
  const MaxPhotoBytes: nat := 2 * 1024 * 1024

  /** The allowlist lookup with the `OrdinalIgnoreCase` comparer. */
  predicate AllowedExtension(ext: string) {
    exists a | a in AllowedExtensions :: EqualsIgnoreCase(ext, a)
  }

  /** Ignoring case, an extension passes exactly when its upper-case form is one
      of the four. */
  lemma AllowedExtensionUpper(ext: string)
    ensures AllowedExtension(ext) <==> Upper(ext) in {".JPG", ".JPEG", ".PNG", ".WEBP"}
  {
    assert Upper(".jpg") == ".JPG";
    assert Upper(".jpeg") == ".JPEG";
    assert Upper(".png") == ".PNG";
    assert Upper(".webp") == ".WEBP";
    if Upper(ext) in {".JPG", ".JPEG", ".PNG", ".WEBP"} {
      if Upper(ext) == ".JPG" {
        assert EqualsIgnoreCase(ext, ".jpg");
      } else if Upper(ext) == ".JPEG" {
        assert EqualsIgnoreCase(ext, ".jpeg");
      } else if Upper(ext) == ".PNG" {
        assert EqualsIgnoreCase(ext, ".png");
      } else {
        assert EqualsIgnoreCase(ext, ".webp");
      }
    }
  }

  /** What the photo part of the POST decides. */
  datatype PhotoCheck = NoPhoto | Accepted(ext: string) | Refused(reason: Reason)

  /** No photo, or an empty one, is ignored; otherwise the extension is checked
      first and the size second. */
  function CheckPhoto(photo: Option<Upload>): (r: PhotoCheck)
    ensures r == NoPhoto <==> photo.None? || photo.value.length == 0
    ensures r == Refused(BadExtension) <==>
      photo.Some? && photo.value.length > 0 && !AllowedExtension(GetExtension(photo.value.fileName))
    ensures r == Refused(TooLarge) <==>
      photo.Some? && photo.value.length > MaxPhotoBytes && AllowedExtension(GetExtension(photo.value.fileName))
    ensures r.Accepted? ==>
      && 0 < photo.value.length <= MaxPhotoBytes
      && r.ext == GetExtension(photo.value.fileName)
      && AllowedExtension(r.ext)
  {
    if photo.None? || photo.value.length == 0 then NoPhoto
    else
      var ext := GetExtension(photo.value.fileName);
      if !AllowedExtension(ext) then Refused(BadExtension)
      else if photo.value.length > MaxPhotoBytes then Refused(TooLarge)
      else Accepted(ext)
  }

  /** An accepted photo's path: the uploads folder, the fresh file name and the
      original extension as typed. */
  function UploadPath(freshName: string, ext: string): (r: string)
    ensures StartsWithIgnoreCase(r, "/uploads/")
    ensures r[|"/uploads/"|..] == freshName + ext
  {
    var r := "/uploads/" + freshName + ext;
    assert r[..|"/uploads/"|] == "/uploads/";
    r
  }

  /** The old photo is a candidate for deletion only when it lies under the
      uploads folder (prefix compared ignoring case). */
  predicate InUploads(path: Option<string>) {
    !IsNullOrWhiteSpace(path) && StartsWithIgnoreCase(path.value, "/uploads/")
  }

  /** A photo this action stored is a candidate for deletion when replaced. */
  lemma StoredPhotoIsDiscardable(freshName: string, ext: string)
    ensures InUploads(Some(UploadPath(freshName, ext)))
  {
    var r := UploadPath(freshName, ext);
    assert r[0] == '/' && !IsWhiteSpace(r[0]);
  }

  // ---------------------------------------------------------------------------
  // Edit (POST)
  // ---------------------------------------------------------------------------

  /** The posted form; `Email` is display-only and never saved. */
  datatype ProfileEdit = ProfileEdit(
    userId: UserId,
    firstName: Option<string>,
    lastName: Option<string>,
    phoneNumber: Option<string>,
    photo: Option<Upload>)

  /** `Edit` (POST): the self-or-administrator check, then the lookup, then the
      model state; a refused photo saves nothing; otherwise the three text
      fields are normalised, an accepted photo's path is recorded, and only that
      user's row changes. `discard` is the old photo path the action deletes, if
      any. The upload's file name is `freshName` (a new GUID in the source). */
  method Edit(s: Store, p: Principal, vm: ProfileEdit, modelValid: bool, freshName: string)
    returns (o: Outcome, discard: Option<string>)
    requires s.Valid() && s.Seeded()
    modifies s
    ensures s.Valid() && s.Seeded()
    ensures !MayEdit(p, vm.userId) ==> o == Forbid && discard.None? && s.Content() == old(s.Content())
    ensures MayEdit(p, vm.userId) && vm.userId !in UserIds(old(s.users)) ==>
      o == NotFound && discard.None? && s.Content() == old(s.Content())
    ensures MayEdit(p, vm.userId) && vm.userId in UserIds(old(s.users)) ==>
      var i := FindUser(old(s.users), vm.userId).value;
      var u := old(s.users)[i];
      var photo := CheckPhoto(vm.photo);
      && (!modelValid ==> o == Rejected(InvalidModel) && discard.None? && s.Content() == old(s.Content()))
      && (modelValid && photo.Refused? ==> o == Rejected(photo.reason) && discard.None? && s.Content() == old(s.Content()))
      && (modelValid && !photo.Refused? ==>
            var u' := u.(firstName := NullIfBlank(vm.firstName),
                         lastName := NullIfBlank(vm.lastName),
                         phoneNumber := NullIfBlank(vm.phoneNumber),
                         profileImagePath := if photo.Accepted? then Some(UploadPath(freshName, photo.ext))
                                             else u.profileImagePath);
            && o == Ok
            && discard == (if photo.Accepted? && InUploads(u.profileImagePath) then u.profileImagePath else None)
            && s.Content() == old(s.Content()).(users := old(s.users)[i := u']))
  {
    discard := None;
    if !MayEdit(p, vm.userId) {
      return Forbid, discard;
    }
    var found := FindUser(s.users, vm.userId);
    if found.None? {
      return NotFound, discard;
    }
    if !modelValid {
      return Rejected(InvalidModel), discard;
    }
    var i := found.value;
    var u := s.users[i];
    u := u.(firstName := NullIfBlank(vm.firstName));
    u := u.(lastName := NullIfBlank(vm.lastName));
    u := u.(phoneNumber := NullIfBlank(vm.phoneNumber));
    var photo := CheckPhoto(vm.photo);
    if photo.Refused? {
      return Rejected(photo.reason), discard;
    }
    if photo.Accepted? {
      if InUploads(u.profileImagePath) {
        discard := u.profileImagePath;
      }
      u := u.(profileImagePath := Some(UploadPath(freshName, photo.ext)));
    }
    UpdateUserKeepsTables(s.Content(), i, u);
    s.users := s.users[i := u];
    assert s.Content() == old(s.Content()).(users := old(s.users)[i := u]);
    o := Ok;
  }
}
