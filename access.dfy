/**
 * The access evaluator of the editor component: owner/group/other permission
 * masks in the style of Unix file modes, decided for the logged-in user.
 */
module Access {
  import opened Wrappers

  /** An entry of `group.members`; only `member.user._id` is consulted. */
  datatype Member = Member(userId: string)

  /** A document's group; its `members` list may be absent. */
  datatype Group = Group(members: Option<seq<Member>>)

  /**
   * The three masks of `memberAccess`. They are plain numbers in the
   * source, so any integer can be stored, not only 0..7.
   */
  datatype MemberAccess = MemberAccess(owner: int, group: int, other: int)

  /**
   * A file or folder as the document service returns it, reduced to the
   * fields the component reads.
   */
  datatype FileFolder = FileFolder(
    id: string,
    content: string,
    ownerId: string,
    group: Option<Group>,
    memberAccess: MemberAccess)

  /**
   * The requested action. `Unrecognised` stands for any other value a caller
   * may pass where an `AccessType` is expected.
   */
  datatype AccessType = Write | Read | Execute | Unrecognised(code: int)

  /** Which of the three masks applies to a user. */
  datatype Role = OwnerRole | GroupRole | OtherRole

  /** The fixed enumerations the source tests a mask against. */
  const WriteAccess: seq<int> := [2, 3, 6, 7]
  const ReadAccess: seq<int> := [4, 5, 6, 7]
  const ExecuteAccess: seq<int> := [1, 3, 5, 7]

  /** The bit values of the three permissions within a mask. */
  const ExecuteBit: int := 1
  const WriteBit: int := 2
  const ReadBit: int := 4

  /** True iff the bit of value `bit` (1, 2 or 4) is set in a mask in 0..7. */
  predicate BitSet(mask: int, bit: int)
    requires bit in {ExecuteBit, WriteBit, ReadBit}
  {
    (mask / bit) % 2 == 1
  }

  /** The owner test: the document's owner id is the logged user's id. */
  predicate IsOwner(doc: FileFolder, userId: string)
  {
    doc.ownerId == userId
  }

  /**
   * `Array.prototype.findIndex` over the members, matching on the user id:
   * the first matching position, or -1 when there is none.
   */
  function FindIndex(members: seq<Member>, userId: string): (r: int)
    ensures -1 <= r < |members|
    ensures r >= 0 ==> members[r].userId == userId
    ensures r >= 0 ==> forall j :: 0 <= j < r ==> members[j].userId != userId
    ensures r == -1 ==> forall j :: 0 <= j < |members| ==> members[j].userId != userId
  {
    if |members| == 0 then -1
    else if members[0].userId == userId then 0
    else
      var k := FindIndex(members[1..], userId);
      if k < 0 then -1 else k + 1
  }

  /** True iff the document has a group with a member list naming the user. */
  function IsInGroup(doc: FileFolder, userId: string): (b: bool)
    ensures b <==>
      doc.group.Some? && doc.group.value.members.Some? &&
      exists m :: m in doc.group.value.members.value && m.userId == userId
  {
    if doc.group.None? || doc.group.value.members.None? then false
    else
      var members := doc.group.value.members.value;
      var k := FindIndex(members, userId);
      assert k >= 0 ==> members[k] in members;
      k >= 0
  }

  /** The role under which a user is judged: owner first, then group, then other. */
  function RoleOf(doc: FileFolder, userId: string): (role: Role)
    ensures role == OwnerRole <==> IsOwner(doc, userId)
    ensures role == GroupRole ==> IsInGroup(doc, userId)
  {
    if IsOwner(doc, userId) then OwnerRole
    else if IsInGroup(doc, userId) then GroupRole
    else OtherRole
  }

  function MaskFor(access: MemberAccess, role: Role): int
  {
    match role
    case OwnerRole => access.owner
    case GroupRole => access.group
    case OtherRole => access.other
  }

  /** The single mask `hasAccess` consults for this user and document. */
  function ApplicableMask(doc: FileFolder, userId: string): (mask: int)
    ensures mask in {doc.memberAccess.owner, doc.memberAccess.group, doc.memberAccess.other}
  {
    MaskFor(doc.memberAccess, RoleOf(doc, userId))
  }

  /** A mask tested against the enumeration of the requested action. */
  function MaskAllows(mask: int, access: AccessType): (b: bool)
    ensures b ==> 1 <= mask <= 7 && !access.Unrecognised?
  {
    match access
    case Write => mask in WriteAccess
    case Read => mask in ReadAccess
    case Execute => mask in ExecuteAccess
    case Unrecognised(_) => false
  }

  /**
   * The access decision. It fails closed: a grant needs a recognised action
   * and an applicable mask within 1..7.
   */
  function HasAccess(doc: FileFolder, userId: string, access: AccessType): (b: bool)
    ensures b ==>
      !access.Unrecognised? && 1 <= ApplicableMask(doc, userId) <= 7
  {
    MaskAllows(ApplicableMask(doc, userId), access)
  }

  /** Owner mask wins, then the group mask, then the other mask. */
  lemma MaskPrecedence(doc: FileFolder, userId: string)
    ensures IsOwner(doc, userId) ==> ApplicableMask(doc, userId) == doc.memberAccess.owner
    ensures !IsOwner(doc, userId) && IsInGroup(doc, userId) ==>
      ApplicableMask(doc, userId) == doc.memberAccess.group
    ensures !IsOwner(doc, userId) && !IsInGroup(doc, userId) ==>
      ApplicableMask(doc, userId) == doc.memberAccess.other
  {
  }

  /**
   * An owner who is also a group member gets the owner mask: with owner
   * mask 7 and group mask 0 every action is granted.
   */
  lemma OwnerInGroupUsesOwnerMask(doc: FileFolder, userId: string, access: AccessType)
    requires IsOwner(doc, userId) && IsInGroup(doc, userId)
    requires doc.memberAccess.owner == 7 && doc.memberAccess.group == 0
    requires !access.Unrecognised?
    ensures HasAccess(doc, userId, access)
  {
  }

  /** The enumerations are exactly the bit tests, and a mask outside 0..7 grants nothing. */
  lemma EnumerationsAreBitTests(mask: int)
    ensures MaskAllows(mask, Write) <==> 0 <= mask <= 7 && BitSet(mask, WriteBit)
    ensures MaskAllows(mask, Read) <==> 0 <= mask <= 7 && BitSet(mask, ReadBit)
    ensures MaskAllows(mask, Execute) <==> 0 <= mask <= 7 && BitSet(mask, ExecuteBit)
  {
  }

  /** The table of all eight masks. */
  lemma MaskTable()
    ensures !MaskAllows(0, Read) && !MaskAllows(0, Write) && !MaskAllows(0, Execute)
    ensures !MaskAllows(1, Read) && !MaskAllows(1, Write) && MaskAllows(1, Execute)
    ensures !MaskAllows(2, Read) && MaskAllows(2, Write) && !MaskAllows(2, Execute)
    ensures !MaskAllows(3, Read) && MaskAllows(3, Write) && MaskAllows(3, Execute)
    ensures MaskAllows(4, Read) && !MaskAllows(4, Write) && !MaskAllows(4, Execute)
    ensures MaskAllows(5, Read) && !MaskAllows(5, Write) && MaskAllows(5, Execute)
    ensures MaskAllows(6, Read) && MaskAllows(6, Write) && !MaskAllows(6, Execute)
    ensures MaskAllows(7, Read) && MaskAllows(7, Write) && MaskAllows(7, Execute)
  {
  }

  /** An unrecognised action, or a mask outside every enumeration, is denied. */
  lemma FailClosed(doc: FileFolder, userId: string, access: AccessType)
    requires access.Unrecognised? || !(0 <= ApplicableMask(doc, userId) <= 7)
    ensures !HasAccess(doc, userId, access)
  {
  }

  /**
   * The decision depends only on the selected mask: replacing the masks by
   * any others that agree on the applicable one leaves it unchanged.
   */
  lemma OnlySelectedMaskMatters(doc: FileFolder, userId: string, access: AccessType, masks: MemberAccess)
    requires MaskFor(masks, RoleOf(doc, userId)) == ApplicableMask(doc, userId)
    ensures HasAccess(doc.(memberAccess := masks), userId, access) == HasAccess(doc, userId, access)
  {
  }

  /** Without a group, or without a member list, or with an empty one, nobody is a member. */
  lemma NoMembersNoMembership(doc: FileFolder, userId: string)
    requires doc.group.None? || doc.group.value.members.None? || doc.group.value.members == Some([])
    ensures !IsInGroup(doc, userId)
  {
  }
}
