/** The username check of the sign-up form (accounts/serializers.py). */
module AccountSerializers {
  import opened Errors

  /** The one reserved username, compared after lowercasing. */
  const Reserved: string := "admin"

  /** Lowercase of one character; only the letters A to Z are folded. */
  function LowerChar(c: char): (r: char)
    ensures !('A' <= r <= 'Z')
    ensures !('A' <= c <= 'Z') ==> r == c
    ensures 'a' <= r <= 'z' <==> 'a' <= c <= 'z' || 'A' <= c <= 'Z'
  {
    if 'A' <= c <= 'Z' then (c as int + 32) as char else c
  }

  /** str.lower, restricted to the letters A to Z. */
  function Lower(s: string): (r: string)
    ensures |r| == |s|
    ensures forall k :: 0 <= k < |s| ==> r[k] == LowerChar(s[k])
    ensures forall k :: 0 <= k < |r| ==> !('A' <= r[k] <= 'Z')
  {
    seq(|s|, k requires 0 <= k < |s| => LowerChar(s[k]))
  }

  /** UserCreateSerializer.validate_username: refuses "admin" in any letter case, passes any other name through. */
  function ValidateUsername(username: string): (r: Result<string>)
    ensures r.Ok? <==> Lower(username) != Reserved
    ensures r.Ok? ==> r.value == username
    ensures r.Err? ==> r.error == UsernameNotAvailable
  {
    if Lower(username) != Reserved then Ok(username) else Err(UsernameNotAvailable)
  }

  /** Exactly the 32 spellings of "admin" in mixed letter case are refused. */
  lemma {:induction false} RefusedExactlyCaseVariantsOfAdmin(username: string)
    ensures ValidateUsername(username).Err? <==>
      |username| == 5 && forall k :: 0 <= k < 5 ==> username[k] == "admin"[k] || username[k] == "ADMIN"[k]
  {
    var low := Lower(username);
    if |username| == 5 && forall k :: 0 <= k < 5 ==> username[k] == "admin"[k] || username[k] == "ADMIN"[k] {
      forall k | 0 <= k < 5
        ensures low[k] == Reserved[k]
      {
        assert username[k] == "admin"[k] || username[k] == "ADMIN"[k];
      }
      assert low == Reserved;
    }
    if low == Reserved {
      forall k | 0 <= k < 5
        ensures username[k] == "admin"[k] || username[k] == "ADMIN"[k]
      {
        assert LowerChar(username[k]) == Reserved[k];
      }
    }
  }

  /** "admin", "Admin" and "ADMIN" are refused; a longer name containing it is not. */
  lemma AdminSpellings()
    ensures ValidateUsername("admin").Err?
    ensures ValidateUsername("Admin").Err?
    ensures ValidateUsername("ADMIN").Err?
    ensures ValidateUsername("administrator") == Ok("administrator")
  {
    RefusedExactlyCaseVariantsOfAdmin("admin");
    RefusedExactlyCaseVariantsOfAdmin("Admin");
    RefusedExactlyCaseVariantsOfAdmin("ADMIN");
  }

  /** The check is the identity on what it accepts, so running it again changes nothing. */
  lemma ValidateUsernameIsIdempotent(username: string)
    ensures ValidateUsername(username).Ok? ==>
      ValidateUsername(ValidateUsername(username).value) == ValidateUsername(username)
  {
  }
}
