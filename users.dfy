/**
 * The attack target (user.cpp): the four shadow fields of an account, the
 * table of supported crypt(3) scheme ids, and the conversion to and from the
 * JSON object of a saved attack.
 */
module Users {
  import opened Wrappers
  import opened Json

  /** The fields of a `user` object, as a value. */
  datatype UserData = UserData(name: string, algid: string, salt: string, hash: string)

  /** The supported crypt(3) scheme ids and their algorithm names. */
  const AlgorithmTypes: map<string, string> :=
    map["1" := "MD5", "2a" := "Blowfish", "5" := "SHA-256", "6" := "SHA-512"]

  /** The algorithm name of a scheme id, or "" for an unsupported id. */
  function AlgorithmName(algid: string): (r: string)
    ensures algid == "1" ==> r == "MD5"
    ensures algid == "2a" ==> r == "Blowfish"
    ensures algid == "5" ==> r == "SHA-256"
    ensures algid == "6" ==> r == "SHA-512"
  {
    if algid in AlgorithmTypes then AlgorithmTypes[algid] else ""
  }

  /** Exactly the four ids 1, 2a, 5 and 6 are supported; every other id has the empty name. */
  lemma SupportedSchemes(algid: string)
    ensures AlgorithmName(algid) != "" <==> algid in {"1", "2a", "5", "6"}
  {
    assert AlgorithmTypes.Keys == {"1", "2a", "5", "6"};
  }

  /** The keys of the saved user fields, in the order they are checked. */
  const UserKeys: seq<string> := ["User", "AlgId", "Salt", "Hash"]

  lemma UserKeysDistinct()
    ensures forall i, j :: 0 <= i < j < |UserKeys| ==> UserKeys[i] != UserKeys[j]
  {
  }

  /**
   * The user of a saved JSON object; fails with the index in UserKeys of the
   * first field that is missing or not a string (the ParsingException).
   */
  function ReadUser(json: JsonObject): (r: Result<UserData, nat>)
    ensures r.Success? <==>
      HasString(json, "User") && HasString(json, "AlgId") && HasString(json, "Salt") && HasString(json, "Hash")
    ensures r.Failure? ==>
      && r.error < |UserKeys| && !HasString(json, UserKeys[r.error])
      && forall i :: 0 <= i < r.error ==> HasString(json, UserKeys[i])
    ensures r.Success? ==> r.value == UserData(json["User"].str, json["AlgId"].str, json["Salt"].str, json["Hash"].str)
  {
    if !HasString(json, "User") then Failure(0)
    else if !HasString(json, "AlgId") then Failure(1)
    else if !HasString(json, "Salt") then Failure(2)
    else if !HasString(json, "Hash") then Failure(3)
    else Success(UserData(json["User"].str, json["AlgId"].str, json["Salt"].str, json["Hash"].str))
  }

  /** write_to_json: the four fields stored as strings into an existing object. */
  function WriteUser(u: UserData, json: JsonObject): (r: JsonObject)
    ensures forall k :: k !in UserKeys ==> (k in r <==> k in json) && (k in json ==> r[k] == json[k])
    ensures HasString(r, "User") && HasString(r, "AlgId") && HasString(r, "Salt") && HasString(r, "Hash")
  {
    json["User" := JString(u.name)]["AlgId" := JString(u.algid)]["Salt" := JString(u.salt)]["Hash" := JString(u.hash)]
  }

  /** Writing a user and reading it back gives the same four fields, whatever the object held before. */
  lemma WriteReadRoundTrip(u: UserData, json: JsonObject)
    ensures ReadUser(WriteUser(u, json)) == Success(u)
  {
    var r := WriteUser(u, json);
    assert r["User"] == JString(u.name) && r["AlgId"] == JString(u.algid);
    assert r["Salt"] == JString(u.salt) && r["Hash"] == JString(u.hash);
  }

  /** A `user` object; its fields are replaced in place by SetUser. */
  class User {
    var name: string
    var algid: string
    var salt: string
    var hash: string

    function Data(): (d: UserData)
      reads this
      ensures d.name == name && d.algid == algid && d.salt == salt && d.hash == hash
    {
      UserData(name, algid, salt, hash)
    }

    /** user(username, algid, salt, hashofpass). */
    constructor (name: string, algid: string, salt: string, hash: string)
      ensures Data() == UserData(name, algid, salt, hash)
    {
      this.name := name;
      this.algid := algid;
      this.salt := salt;
      this.hash := hash;
    }

    /** The copy constructor: all four fields of `other`. */
    constructor Copy(other: User)
      ensures Data() == other.Data()
    {
      name := other.name;
      algid := other.algid;
      salt := other.salt;
      hash := other.hash;
    }

    method SetUser(name: string, algid: string, salt: string, hash: string)
      modifies this
      ensures Data() == UserData(name, algid, salt, hash)
    {
      this.name := name;
      this.algid := algid;
      this.salt := salt;
      this.hash := hash;
    }

    /**
     * operator=: builds and returns a new user holding `other`'s fields; the
     * left operand itself is left as it was.
     */
    method Assign(other: User) returns (r: User)
      ensures fresh(r) && r.Data() == other.Data()
      ensures Data() == old(Data())
    {
      r := new User("", "", "", "");
      r.SetUser(other.name, other.algid, other.salt, other.hash);
    }

    /** write_to_json. */
    function WriteToJson(json: JsonObject): (r: JsonObject)
      reads this
      ensures ReadUser(r) == Success(Data())
      ensures forall k :: k !in UserKeys ==> (k in r <==> k in json) && (k in json ==> r[k] == json[k])
    {
      WriteReadRoundTrip(Data(), json);
      WriteUser(Data(), json)
    }
  }

  /** user(const QJsonObject&): a new user, or the first bad field of the object. */
  method UserFromJson(json: JsonObject) returns (r: Result<User, nat>)
    ensures ReadUser(json).Failure? ==> r == Failure(ReadUser(json).error)
    ensures ReadUser(json).Success? ==> r.Success? && fresh(r.value) && r.value.Data() == ReadUser(json).value
  {
    match ReadUser(json)
    case Failure(e) => r := Failure(e);
    case Success(d) =>
      var u := new User(d.name, d.algid, d.salt, d.hash);
      r := Success(u);
  }
}
