/**
 * IPP constants: delimiter tags, attribute names, operation ids, status
 * codes and enum values. The numbers and keywords are those of RFC 8010
 * (section 3.5.1) and RFC 8011 (sections 4.4, 5.3 and 5.4).
 */
module IppConsts {
  import opened IppTypes

  // Delimiter tags (section 3.5.1 of RFC 8010)
  const OPERATION_ATTRIBUTES_TAG: byte := 0x01
  const JOB_ATTRIBUTES_TAG: byte := 0x02
  const END_OF_ATTRIBUTES_TAG: byte := 0x03
  const PRINTER_ATTRIBUTES_TAG: byte := 0x04
  const UNSUPPORTED_ATTRIBUTES_TAG: byte := 0x05

  // Operation ids (section 5.4.15 of RFC 8011)
  const PRINT_JOB: u16 := 0x0002
  const VALIDATE_JOB: u16 := 0x0004
  const CREATE_JOB: u16 := 0x0005
  const CANCEL_JOB: u16 := 0x0008
  const GET_JOB_ATTRIBUTES: u16 := 0x0009
  const GET_JOBS: u16 := 0x000A
  const GET_PRINTER_ATTRIBUTES: u16 := 0x000B

  // Status codes (appendix B of RFC 8011)
  const SUCCESSFUL_OK: u16 := 0x0000
  const CLIENT_ERROR_BAD_REQUEST: u16 := 0x0400
  const SERVER_ERROR_OPERATION_NOT_SUPPORTED: u16 := 0x0501

  // printer-state (section 5.4.11 of RFC 8011)
  const PRINTER_STATE_IDLE: i32 := 3
  const PRINTER_STATE_PROCESSING: i32 := 4

  // job-state (section 5.3.7 of RFC 8011)
  const JOB_STATE_PROCESSING: i32 := 5

  // finishings (section 5.2.6 of RFC 8011)
  const FINISHINGS_NONE: i32 := 3

  // Operation attributes
  const ATTRIBUTES_CHARSET := "attributes-charset"
  const ATTRIBUTES_NATURAL_LANGUAGE := "attributes-natural-language"
  const PRINTER_URI := "printer-uri"
  const REQUESTED_ATTRIBUTES := "requested-attributes"

  // Job attributes
  const JOB_URI := "job-uri"
  const JOB_ID := "job-id"
  const JOB_STATE := "job-state"
  const JOB_STATE_REASONS := "job-state-reasons"

  // Printer attributes
  const PRINTER_URI_SUPPORTED := "printer-uri-supported"
  const URI_SECURITY_SUPPORTED := "uri-security-supported"
  const URI_AUTHENTICATION_SUPPORTED := "uri-authentication-supported"
  const PRINTER_NAME := "printer-name"
  const PRINTER_STATE := "printer-state"
  const PRINTER_STATE_REASONS := "printer-state-reasons"
  const IPP_VERSIONS_SUPPORTED := "ipp-versions-supported"
  const OPERATIONS_SUPPORTED := "operations-supported"
  const CHARSET_CONFIGURED := "charset-configured"
  const CHARSET_SUPPORTED := "charset-supported"
  const NATURAL_LANGUAGE_CONFIGURED := "natural-language-configured"
  const GENERATED_NATURAL_LANGUAGE_SUPPORTED := "generated-natural-language-supported"
  const DOCUMENT_FORMAT_DEFAULT := "document-format-default"
  const DOCUMENT_FORMAT_SUPPORTED := "document-format-supported"
  const PRINTER_IS_ACCEPTING_JOBS := "printer-is-accepting-jobs"
  const QUEUED_JOB_COUNT := "queued-job-count"
  const PDL_OVERRIDE_SUPPORTED := "pdl-override-supported"
  const PRINTER_UP_TIME := "printer-up-time"
  const COMPRESSION_SUPPORTED := "compression-supported"
  const PRINTER_STATE_MESSAGE := "printer-state-message"
  const PRINTER_MAKE_AND_MODEL := "printer-make-and-model"
  const FINISHINGS_DEFAULT := "finishings-default"
  const FINISHINGS_SUPPORTED := "finishings-supported"
  const PRINTER_INFO := "printer-info"
}
