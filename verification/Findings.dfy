/** The records that matching works on: vulnerabilities, packages and the matches that pair them. */
module Findings {

  datatype MatchType = ExactDirect | ExactIndirect | Cpe | Other(name: string)

  /** One way a match was made. The id stands for the hash that Detail.ID computes. */
  datatype Detail = Detail(ty: MatchType, confidence: real, id: string)

  datatype Reference = Reference(id: string, namespace: string)

  datatype Vulnerability = Vulnerability(
    id: string,
    namespace: string,
    fixVersions: seq<string>,
    fixState: string,
    related: seq<Reference>
  )

  datatype Location = Location(realPath: string, accessPath: string)

  /** relatedPackages lists package ids by relationship type. */
  datatype Package = Package(
    id: string,
    name: string,
    version: string,
    language: string,
    ty: string,
    locations: seq<Location>,
    upstreams: seq<string>,
    relatedPackages: map<string, seq<string>>
  )

  datatype Match = Match(vulnerability: Vulnerability, pkg: Package, details: seq<Detail>)

  const NO_VULNERABILITY := Vulnerability("", "", [], "", [])
  const NO_PACKAGE := Package("", "", "", "", "", [], [], map[])

  /** What reading a missing key of a Go map yields. */
  const ZERO_MATCH := Match(NO_VULNERABILITY, NO_PACKAGE, [])
}
