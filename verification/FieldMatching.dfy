/** Matching one request field against its matchers (core/matching/field_matcher.go and its siblings). */
module FieldMatching {
  import opened Bytes
  import opened Wrappers
  import opened Models
  import opened Globs

  predicate XmlMatch(lib: Library, pattern: Text, s: Text) {
    lib.minifyXml(pattern).Some? && lib.minifyXml(pattern) == lib.minifyXml(s)
  }

  predicate JsonMatch(lib: Library, pattern: Text, s: Text) {
    lib.minifyJson(pattern).Some? && lib.minifyJson(pattern) == lib.minifyJson(s)
  }

  predicate RegexMatch(lib: Library, pattern: Text, s: Text) {
    lib.regexCompiles(pattern) && lib.regexMatches(pattern, s)
  }

  /** core/matching/field_matcher.go, FieldMatcher. */
  predicate FieldMatcher(lib: Library, field: Option<FieldMatchers>, s: Text) {
    field.None? ||
    var m := field.value;
    && (m.exactMatch.Some? ==> m.exactMatch.value == s)
    && (m.xmlMatch.Some? ==> XmlMatch(lib, m.xmlMatch.value, s))
    && (m.xpathMatch.Some? ==> lib.xpathMatch(m.xpathMatch.value, s))
    && (m.jsonMatch.Some? ==> JsonMatch(lib, m.jsonMatch.value, s))
    && (m.jsonPathMatch.Some? ==> lib.jsonPathMatch(m.jsonPathMatch.value, s))
    && (m.regexMatch.Some? ==> RegexMatch(lib, m.regexMatch.value, s))
    && (m.globMatch.Some? ==> GlobAccepts(m.globMatch.value, s))
  }
}
