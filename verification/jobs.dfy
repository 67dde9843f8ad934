/**
 * A job posting as the plugin passes it around: a PHP associative array
 * from field name to string.  The five field names the core reads or
 * writes are constructors; any other key a source supplies is `Extra`.
 * Only string values are modelled.
 */
module Jobs {

  datatype Field = Title | Location | Link | Category | Type | Extra(name: string)

  type Job = map<Field, string>

  /** PHP's empty() on a string: true for "" and for "0". */
  predicate EmptyString(s: string) {
    s == "" || s == "0"
  }

  /** PHP's empty($job[key]): true also when the key is missing. */
  predicate Empty(j: Job, key: Field) {
    key !in j || EmptyString(j[key])
  }
}
