/** The admin gate: HTTP Basic credentials compared, by plain equality, with two configured secrets.
    Decoding the `Authorization` header is the job of the `basic-auth` library; its output enters
    here as an optional name/password pair. */
module Auth {
  import opened Wrappers
  import opened Http

  /** What `basic-auth` returns for a well-formed `Authorization: Basic …` header. */
  datatype Credentials = Credentials(name: string, pass: string)

  /** The administrator name and password the process is configured with. */
  datatype Secrets = Secrets(user: string, pass: string)

  const DefaultUser := "admin"
  const DefaultPass := "change_me_strong_pass"

  /** An environment variable or its fallback: an unset or empty variable selects the fallback. */
  function EnvOr(env: Option<string>, fallback: string): string
  {
    if env.Some? && env.value != "" then env.value else fallback
  }

  /** The secrets in force for the given `ADMIN_USER` and `ADMIN_PASS` environment variables.
      Neither can be empty, so a credential with an empty name or password is never admitted. */
  function Configured(envUser: Option<string>, envPass: Option<string>): (s: Secrets)
    ensures s.user != "" && s.pass != ""
    ensures s.user == (if envUser == None || envUser == Some("") then DefaultUser else envUser.value)
    ensures s.pass == (if envPass == None || envPass == Some("") then DefaultPass else envPass.value)
  {
    Secrets(EnvOr(envUser, DefaultUser), EnvOr(envPass, DefaultPass))
  }

  /** The answer to a request the gate turns away. */
  const Challenge: Response :=
    Response(401, map["WWW-Authenticate" := "Basic realm=\"Admin\""], TextBody("Auth required"))

  /** The gate's decision: `None` lets the request through to its handler, `Some(r)` answers it
      with `r` instead. */
  function Gate(cred: Option<Credentials>, secrets: Secrets): (denial: Option<Response>)
    ensures denial.None? <==> cred == Some(Credentials(secrets.user, secrets.pass))
    ensures denial.Some? ==> && denial.value.status == 401
                             && "WWW-Authenticate" in denial.value.headers
                             && denial.value.headers["WWW-Authenticate"] == "Basic realm=\"Admin\""
  {
    if cred.None? || cred.value.name != secrets.user || cred.value.pass != secrets.pass
    then Some(Challenge)
    else None
  }
}
