/**
 * The records of the data layer: the Identity user with its role set, direct
 * messages, groups, group memberships and group messages, with `CreatedAt`
 * as a logical clock; and the caller and outcome types the controller actions
 * use in place of the HTTP pipeline.
 */
module Entities {
  import opened Wrappers
  import opened Text

  /** Identity user ids are GUID strings. */
  type UserId = string

  /** The two roles the application seeds. */
  datatype Role = Admin | User

  /** The e-mail of the seeded, protected administrator. */
  const SeedAdminEmail: string := "admin@tc.local"

  /** `ApplicationUser`: an Identity user with its roles (the user-role join table folded in). */
  datatype ApplicationUser = ApplicationUser(
    id: UserId,
    userName: string,
    email: string,
    roles: set<Role>,
    firstName: Option<string>,
    lastName: Option<string>,
    phoneNumber: Option<string>,
    profileImagePath: Option<string>)

  /** A direct message. */
  datatype Message = Message(id: int, senderId: UserId, recipientId: UserId, content: string, createdAt: nat)

  datatype Group = Group(id: int, name: string, createdAt: nat)

  datatype GroupMember = GroupMember(id: int, groupId: int, userId: UserId)

  datatype GroupMessage = GroupMessage(id: int, groupId: int, senderId: UserId, content: string, createdAt: nat)

  /** The authenticated caller as the cookie presents it: its user id and the roles in its claims. */
  datatype Principal = Principal(id: UserId, roles: set<Role>)

  predicate IsAdmin(p: Principal) {
    Admin in p.roles
  }

  /** Why a request was turned away without a change. */
  datatype Reason =
    | BlankName            // group name missing or white space
    | InvalidModel         // ModelState.IsValid was false
    | BadExtension         // photo extension outside the allowlist
    | TooLarge             // photo above 2 MiB
    | DuplicateEmail       // registration of an e-mail already in use
    | CreateFailed         // UserManager.CreateAsync reported failure
    | ForeignKeyViolation  // SaveChanges refused an insert whose reference is missing

  /** What an action answers in place of its HTTP result. */
  datatype Outcome = Ok | Forbid | NotFound | Rejected(reason: Reason) | Protected | NoOp

  /** Identity's normalised e-mail (`ToUpperInvariant`), the key `FindByEmailAsync` looks up. */
  function NormalizeEmail(email: string): string {
    Upper(email)
  }

  // Keys the store orders its tables by.
  function MessageId(m: Message): int { m.id }
  function MessageTime(m: Message): int { m.createdAt }
  function GroupId(g: Group): int { g.id }
  function GroupTime(g: Group): int { g.createdAt }
  function MemberId(m: GroupMember): int { m.id }
  function GroupMessageId(m: GroupMessage): int { m.id }
  function GroupMessageTime(m: GroupMessage): int { m.createdAt }
}
