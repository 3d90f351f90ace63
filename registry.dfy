/**
 * The shape of one entry of the application's country registry (`COUNTRIES`
 * and `COUNTRY_BY_CODE`). The registry's contents, in
 * src/lib/constants/countries.ts, are not part of this model: every operation
 * that consults it takes it as a parameter.
 */
module Registry {

  /** A registry country: alpha-2 code, Russian display name, English name. */
  datatype Country = Country(code: string, name: string, nameEn: string)
}
