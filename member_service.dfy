/** The member service: the name-uniqueness rule on top of the repository. */
module Service {
  import opened Wrappers
  import opened Domain
  import Registry
  import opened Repository

  /** Registers members through a repository, refusing a name that is already taken. */
  class MemberService {
    const memberRepository: MemoryMemberRepository

    ghost predicate Valid()
      reads this, memberRepository
    {
      memberRepository.Valid()
    }

    constructor (memberRepository: MemoryMemberRepository)
      requires memberRepository.Valid()
      ensures Valid() && this.memberRepository == memberRepository
    {
      this.memberRepository := memberRepository;
    }

    /**
     * Registers the member. When a stored member already has its name the
     * call fails with DuplicateMember before anything is saved; otherwise the
     * member is saved and the id it was given (the repository's new counter)
     * is returned, and it is then found under that id with its name.
     */
    method Join(member: Member) returns (r: Result<int, JoinError>)
      requires Valid()
      modifies memberRepository
      ensures Valid()
      ensures (r, memberRepository.Model()) == Registry.Join(old(memberRepository.Model()), member)
      ensures r.Failure? <==> old(Registry.HasName(memberRepository.store, member.name))
      ensures r.Failure? ==> unchanged(memberRepository)
      ensures r.Success? ==> r.value == memberRepository.sequence == old(memberRepository.sequence) + 1
      ensures r.Success? ==> FindOne(r.value) == Some(member.(id := r.value))
      ensures old(Registry.NamesUnique(memberRepository.store)) ==> Registry.NamesUnique(memberRepository.store)
    {
      var check := ValidateDuplicateMember(member);
      if check.Fail? {
        return Failure(check.error);
      }
      var saved := memberRepository.Save(member);
      return Success(saved.id);
    }

    /** Fails with DuplicateMember exactly when a stored member has the candidate's name. */
    method ValidateDuplicateMember(member: Member) returns (o: Outcome<JoinError>)
      ensures o.Fail? <==> Registry.HasName(memberRepository.store, member.name)
      ensures o.Fail? ==> o.error == DuplicateMember
    {
      var result := memberRepository.FindByName(member.name);
      if result.Some? {
        return Fail(DuplicateMember);
      }
      return Pass;
    }

    /** All stored members, in unspecified order, each exactly once. */
    method FindMembers() returns (members: seq<Member>)
      requires Valid()
      ensures |members| == |memberRepository.store|
      ensures forall m :: m in members <==> m in memberRepository.store.Values
      ensures forall i, j :: 0 <= i < j < |members| ==> members[i] != members[j]
    {
      members := memberRepository.FindAll();
    }

    /** The member stored under memberId, if any: the repository's own lookup. */
    function FindOne(memberId: int): (r: Option<Member>)
      reads this, memberRepository
      ensures r == memberRepository.FindById(memberId)
      ensures r.Some? <==> memberId in memberRepository.store
    {
      memberRepository.FindById(memberId)
    }
  }

  /**
   * Joining "spring1" and then "spring2" on a new repository succeeds with
   * ids 1 and 2; joining "spring1" once more fails, and two members remain.
   */
  method JoinScenario() returns (first: Result<int, JoinError>, second: Result<int, JoinError>,
                                 again: Result<int, JoinError>, members: seq<Member>)
    ensures first == Success(1) && second == Success(2)
    ensures again == Failure(DuplicateMember)
    ensures |members| == 2
    ensures forall m :: m in members <==> m == Member(1, "spring1") || m == Member(2, "spring2")
  {
    var repository := new MemoryMemberRepository();
    var service := new MemberService(repository);
    first := service.Join(Member(0, "spring1"));
    second := service.Join(Member(0, "spring2"));
    again := service.Join(Member(0, "spring1"));
    members := service.FindMembers();
  }
}
