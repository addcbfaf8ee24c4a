/** Policy profiles and tool policies (`policy.py`). */
module Policy {
  import opened Text

  const ALL_CATEGORIES: set<string> := {
    "PERSON", "EMAIL", "PHONE_RU", "INN", "SNILS", "PASSPORT_RU", "CARD", "BANK_ACCOUNT",
    "ADDRESS_RU", "CAR_PLATE_RU", "OGRN", "OGRNIP", "BIK", "URL", "IP", "DOB"
  }

  const CRITICAL_CATEGORIES: set<string> := {"PASSPORT_RU", "SNILS", "INN", "CARD"}

  datatype PolicyProfile = PolicyProfile(name: string, maskCategories: set<string>, natashaMinConfidence: real)

  /** `profile`; `None` is the `ValueError` for an unknown name. */
  function Profile(name: string): Option<PolicyProfile> {
    if name == "strict" then Some(PolicyProfile("strict", ALL_CATEGORIES, 0.5))
    else if name == "balanced" then Some(PolicyProfile("balanced", ALL_CATEGORIES - {"URL", "IP"}, 0.75))
    else if name == "permissive" then Some(PolicyProfile("permissive", CRITICAL_CATEGORIES, 0.9))
    else None
  }

  /** `mode` is any string: the registry is read without checking it. */
  datatype ToolPolicy = ToolPolicy(mode: string, keys: seq<string>)

  /** The registry; `byDefault` covers every tool that is not registered. */
  datatype ToolPolicies = ToolPolicies(byTool: map<string, ToolPolicy>, byDefault: ToolPolicy) {
    function ForTool(name: string): ToolPolicy {
      if name in byTool then byTool[name] else byDefault
    }
  }
}
