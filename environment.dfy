/** `get_env_key`, defined identically by both scripts. */
module Environment {

  /** The value obtained for a credential, and whether the user was asked for it. */
  datatype Lookup = Lookup(value: string, prompted: bool)

  /**
   * `get_env_key`: the environment's value when it is set and non-empty
   * (then no prompt is shown); otherwise the line the user types at the prompt.
   */
  function GetEnvKey(env: map<string, string>, key: string, typed: string): (r: Lookup)
    ensures !r.prompted <==> key in env && env[key] != ""
    ensures !r.prompted ==> r.value == env[key]
    ensures r.prompted ==> r.value == typed
  {
    if key in env && env[key] != "" then Lookup(env[key], false) else Lookup(typed, true)
  }
}
