/** Credentials and the member directory lookup: `hash_password`,
    `verify_password` and `login`. */
module Auth {
  import opened Records
  import opened Outcomes

  /** The stored form of a password. There is no hashing: the stored form is
      the cleartext password itself. */
  function HashPassword(password: string): (h: string)
    ensures h == password
  {
    password
  }

  /** A password is accepted exactly when the stored text is the stored form
      of that password. */
  predicate VerifyPassword(password: string, hashed: string): (ok: bool)
    ensures ok <==> hashed == HashPassword(password)
  {
    password == hashed
  }

  /** A stored password is accepted for exactly the password it was made from. */
  lemma VerifyHashed(password: string, attempt: string)
    ensures VerifyPassword(attempt, HashPassword(password)) <==> attempt == password
  {
  }

  /** Member `m` is the one `login` accepts for this identifier and password. */
  predicate Authenticates(m: Member, memberId: string, password: string) {
    m.memberId == memberId && VerifyPassword(password, m.passwordHash)
  }

  /** `login`: the first member (in table order) whose identifier and password
      both match, or `None`. An unknown identifier and a wrong password give
      the same answer. */
  function Login(members: seq<Member>, memberId: string, password: string): (r: Option<Member>)
    ensures r.None? <==> forall i :: 0 <= i < |members| ==> !Authenticates(members[i], memberId, password)
    ensures forall i ::
              (0 <= i < |members| && Authenticates(members[i], memberId, password) &&
               forall j :: 0 <= j < i ==> !Authenticates(members[j], memberId, password))
              ==> r == Some(members[i])
  {
    if |members| == 0 then None
    else if Authenticates(members[0], memberId, password) then Some(members[0])
    else
      var rest := Login(members[1..], memberId, password);
      assert forall i :: 1 <= i < |members| ==> members[i] == members[1..][i - 1];
      rest
  }

  /** Some member already has this identifier (the check in `register_member`). */
  predicate MemberIdTaken(members: seq<Member>, memberId: string) {
    exists i :: 0 <= i < |members| && members[i].memberId == memberId
  }

  /** No two members share an identifier. */
  predicate UniqueMemberIds(members: seq<Member>) {
    forall i, j :: 0 <= i < j < |members| ==> members[i].memberId != members[j].memberId
  }

  /** With unique identifiers, `login` succeeds for a member's own identifier
      and password and returns that member. */
  lemma {:induction false} LoginFindsUniqueMember(members: seq<Member>, k: int, password: string)
    requires UniqueMemberIds(members)
    requires 0 <= k < |members| && VerifyPassword(password, members[k].passwordHash)
    ensures Login(members, members[k].memberId, password) == Some(members[k])
  {
    assert Authenticates(members[k], members[k].memberId, password);
    forall j | 0 <= j < k
      ensures !Authenticates(members[j], members[k].memberId, password)
    {
      assert members[j].memberId != members[k].memberId;
    }
  }
}
