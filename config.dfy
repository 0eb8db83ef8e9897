/** The process environment the core reads (`process.env`). */
module Config {
  import opened Wrappers

  datatype Env = Env(aesSecret: Option<string>, jwtSecret: Option<string>, nodeEnv: Option<string>)

  /** JavaScript truthiness of an optional string: `undefined` and `""` are both falsy. */
  predicate Truthy(v: Option<string>) {
    v.Some? && v.value != ""
  }

  predicate IsProduction(env: Env) {
    env.nodeEnv == Some("production")
  }
}
