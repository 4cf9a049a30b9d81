/**
  The request and response records of the services. Request fields the
  client may leave out (Java null) are Options. The creation request carries
  Bean Validation constraints, modelled here as the set of violation
  messages the validator reports.
 */
module Dto {
  import opened Model

  /** The creation request; every field may be null before validation. */
  datatype ClubCreateDTO = ClubCreateDTO(name: Option<string>, description: Option<string>,
                                         category: Option<string>, free: Option<bool>,
                                         price: Option<Price>)

  /** The partial-update request: a null field means "keep the current value". */
  datatype ClubUpdateDTO = ClubUpdateDTO(name: Option<string>, description: Option<string>,
                                         category: Option<string>, free: Option<bool>,
                                         price: Option<Price>)

  /** The club view returned by create, update and the club listings. */
  datatype ClubDetailDTO = ClubDetailDTO(id: ClubId, name: string, description: string,
                                         category: string, free: bool, price: Option<Price>,
                                         creatorId: Option<UserId>, memberCount: nat)

  /** One member of a club, with the user's fields copied in. */
  datatype MemberResponseDTO = MemberResponseDTO(userId: UserId, name: string, username: string,
                                                 email: string, clubRole: string, joinedAt: Time)

  /** One club of a user, with that user's role in it. */
  datatype ClubResponseDTO = ClubResponseDTO(id: ClubId, name: string, description: string,
                                             category: string, free: bool, price: Option<Price>,
                                             clubRole: string, memberCount: nat)

  /** A user as listed to clients; the password is not part of it. */
  datatype UserResponseDTO = UserResponseDTO(id: UserId, name: string, username: string,
                                             email: string, role: string)

  /** The registration request; a missing role is null. */
  datatype RegisterDTO = RegisterDTO(name: string, username: string, email: string,
                                     password: string, role: Option<Role>)

  // ---------------------------------------------------------------------------
  // Validation of ClubCreateDTO

  const NameRequired := "Club name is required"
  const DescriptionRequired := "Description is required"
  const CategoryRequired := "Category is required"
  const FreeRequired := "Free status is required"

  /** Java's String.trim() drops every character up to U+0020; blank means nothing is left. */
  predicate IsBlank(s: string)
  {
    forall i :: 0 <= i < |s| ==> s[i] <= ' '
  }

  /** @NotBlank: not null, and not blank. */
  predicate NotBlank(s: Option<string>)
  {
    s.Some? && !IsBlank(s.value)
  }

  /** The messages of every constraint the request breaks; `price` carries none. */
  function Violations(dto: ClubCreateDTO): (v: set<string>)
    ensures NameRequired in v <==> !NotBlank(dto.name)
    ensures DescriptionRequired in v <==> !NotBlank(dto.description)
    ensures CategoryRequired in v <==> !NotBlank(dto.category)
    ensures FreeRequired in v <==> dto.free.None?
    ensures v <= {NameRequired, DescriptionRequired, CategoryRequired, FreeRequired}
  {
    (if NotBlank(dto.name) then {} else {NameRequired}) +
    (if NotBlank(dto.description) then {} else {DescriptionRequired}) +
    (if NotBlank(dto.category) then {} else {CategoryRequired}) +
    (if dto.free.Some? then {} else {FreeRequired})
  }

  /** @Valid accepts the request: no constraint is broken. */
  predicate IsValid(dto: ClubCreateDTO)
  {
    Violations(dto) == {}
  }

  /** A request is accepted exactly when name, description and category are non-blank and free is set. */
  lemma ValidIff(dto: ClubCreateDTO)
    ensures IsValid(dto) <==>
            NotBlank(dto.name) && NotBlank(dto.description) && NotBlank(dto.category) && dto.free.Some?
  {
    if !IsValid(dto) {
      var v := Violations(dto);
      var x :| x in v;
      assert x in {NameRequired, DescriptionRequired, CategoryRequired, FreeRequired};
    }
  }

  /** The price takes no part in validation: any price, with any free flag, is accepted. */
  lemma PriceUnconstrained(dto: ClubCreateDTO, price: Option<Price>)
    ensures IsValid(dto.(price := price)) == IsValid(dto)
  {
  }

  /** Any name made of spaces, tabs and line breaks only (the empty name included) is refused. */
  lemma BlankNameRefused(dto: ClubCreateDTO)
    requires dto.name.Some?
    requires forall i :: 0 <= i < |dto.name.value| ==>
               var c := dto.name.value[i]; c == ' ' || c == '\t' || c == '\n' || c == '\r'
    ensures NameRequired in Violations(dto)
    ensures !IsValid(dto)
  {
    assert IsBlank(dto.name.value);
  }
}
