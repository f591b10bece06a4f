// The access-right, ACE, security-descriptor and SID constants of the
// Active Directory sync channel, as 32-bit words.  Derived masks are written
// as the same ORs of named bits that define them.
module SddlConstants {
  type Word = bv32

  // Registry / object rights
  const SEC_RIGHTS_QUERY_VALUE: Word := 0x00000001
  const SEC_RIGHTS_SET_VALUE: Word := 0x00000002
  const SEC_RIGHTS_CREATE_SUBKEY: Word := 0x00000004
  const SEC_RIGHTS_ENUM_SUBKEYS: Word := 0x00000008
  const SEC_RIGHTS_NOTIFY: Word := 0x00000010
  const SEC_RIGHTS_CREATE_LINK: Word := 0x00000020
  const SEC_RIGHTS_READ: Word := 0x00020019
  const SEC_RIGHTS_FULL_CONTROL: Word := 0x000f003f
  const SEC_RIGHTS_MAXIMUM_ALLOWED: Word := 0x02000000

  // Directory-service rights
  const SEC_RIGHTS_LIST_CONTENTS: Word := 0x4
  const SEC_RIGHTS_LIST_OBJECT: Word := 0x80
  const SEC_RIGHTS_READ_ALL_PROP: Word := 0x10
  const SEC_RIGHTS_READ_PERMS: Word := 0x20000
  const SEC_RIGHTS_WRITE_ALL_VALID: Word := 0x8
  const SEC_RIGHTS_WRITE_ALL_PROP: Word := 0x20
  const SEC_RIGHTS_MODIFY_OWNER: Word := 0x80000
  const SEC_RIGHTS_MODIFY_PERMS: Word := 0x40000
  const SEC_RIGHTS_CREATE_CHILD: Word := 0x1
  const SEC_RIGHTS_DELETE_CHILD: Word := 0x2
  const SEC_RIGHTS_DELETE_SUBTREE: Word := 0x40
  const SEC_RIGHTS_DELETE: Word := 0x10000
  const SEC_RIGHTS_EXTENDED: Word := 0x100
  const SEC_RIGHTS_CHANGE_PASSWD: Word := SEC_RIGHTS_EXTENDED
  const SEC_RIGHTS_RESET_PASSWD: Word := SEC_RIGHTS_EXTENDED
  const SEC_RIGHTS_FULL_CTRL: Word := 0xf01ff

  // ACE object flags
  const SEC_ACE_OBJECT_PRESENT: Word := 0x00000001
  const SEC_ACE_OBJECT_INHERITED_PRESENT: Word := 0x00000002

  // ACE flags
  const SEC_ACE_FLAG_OBJECT_INHERIT: Word := 0x1
  const SEC_ACE_FLAG_CONTAINER_INHERIT: Word := 0x2
  const SEC_ACE_FLAG_NO_PROPAGATE_INHERIT: Word := 0x4
  const SEC_ACE_FLAG_INHERIT_ONLY: Word := 0x8
  const SEC_ACE_FLAG_INHERITED_ACE: Word := 0x10
  const SEC_ACE_FLAG_VALID_INHERIT: Word := 0xf
  const SEC_ACE_FLAG_SUCCESSFUL_ACCESS: Word := 0x40
  const SEC_ACE_FLAG_FAILED_ACCESS: Word := 0x80

  // ACE types
  const SEC_ACE_TYPE_ACCESS_ALLOWED: Word := 0x0
  const SEC_ACE_TYPE_ACCESS_DENIED: Word := 0x1
  const SEC_ACE_TYPE_SYSTEM_AUDIT: Word := 0x2
  const SEC_ACE_TYPE_SYSTEM_ALARM: Word := 0x3
  const SEC_ACE_TYPE_ALLOWED_COMPOUND: Word := 0x4
  const SEC_ACE_TYPE_ACCESS_ALLOWED_OBJECT: Word := 0x5
  const SEC_ACE_TYPE_ACCESS_DENIED_OBJECT: Word := 0x6
  const SEC_ACE_TYPE_SYSTEM_AUDIT_OBJECT: Word := 0x7
  const SEC_ACE_TYPE_SYSTEM_ALARM_OBJECT: Word := 0x8

  // Security-descriptor control bits
  const SEC_DESC_OWNER_DEFAULTED: Word := 0x0001
  const SEC_DESC_GROUP_DEFAULTED: Word := 0x0002
  const SEC_DESC_DACL_PRESENT: Word := 0x0004
  const SEC_DESC_DACL_DEFAULTED: Word := 0x0008
  const SEC_DESC_SACL_PRESENT: Word := 0x0010
  const SEC_DESC_SACL_DEFAULTED: Word := 0x0020
  const SEC_DESC_DACL_TRUSTED: Word := 0x0040
  const SEC_DESC_SERVER_SECURITY: Word := 0x0080
  const SE_DESC_DACL_AUTO_INHERIT_REQ: Word := 0x0100
  const SE_DESC_SACL_AUTO_INHERIT_REQ: Word := 0x0200
  const SE_DESC_DACL_AUTO_INHERITED: Word := 0x0400
  const SE_DESC_SACL_AUTO_INHERITED: Word := 0x0800
  const SE_DESC_DACL_PROTECTED: Word := 0x1000
  const SE_DESC_SACL_PROTECTED: Word := 0x2000
  const SEC_DESC_RM_CONTROL_VALID: Word := 0x4000
  const SEC_DESC_SELF_RELATIVE: Word := 0x8000

  // Security information
  const OWNER_SECURITY_INFORMATION: Word := 0x00000001
  const GROUP_SECURITY_INFORMATION: Word := 0x00000002
  const DACL_SECURITY_INFORMATION: Word := 0x00000004
  const SACL_SECURITY_INFORMATION: Word := 0x00000008
  const UNPROTECTED_SACL_SECURITY_INFORMATION: Word := 0x10000000
  const UNPROTECTED_DACL_SECURITY_INFORMATION: Word := 0x20000000
  const PROTECTED_SACL_SECURITY_INFORMATION: Word := 0x40000000
  const PROTECTED_DACL_SECURITY_INFORMATION: Word := 0x80000000
  const ALL_SECURITY_INFORMATION: Word :=
    OWNER_SECURITY_INFORMATION | GROUP_SECURITY_INFORMATION |
    DACL_SECURITY_INFORMATION | SACL_SECURITY_INFORMATION |
    UNPROTECTED_SACL_SECURITY_INFORMATION | UNPROTECTED_DACL_SECURITY_INFORMATION |
    PROTECTED_SACL_SECURITY_INFORMATION | PROTECTED_DACL_SECURITY_INFORMATION

  // Access-mask regions
  const SPECIFIC_RIGHTS_MASK: Word := 0x0000FFFF
  const STANDARD_RIGHTS_MASK: Word := 0x00FF0000
  const GENERIC_RIGHTS_MASK: Word := 0xF0000000
  const SEC_RIGHT_SYSTEM_SECURITY: Word := 0x01000000
  const SEC_RIGHT_MAXIMUM_ALLOWED: Word := 0x02000000

  // Generic rights
  const GENERIC_RIGHT_ALL_ACCESS: Word := 0x10000000
  const GENERIC_RIGHT_EXECUTE_ACCESS: Word := 0x20000000
  const GENERIC_RIGHT_WRITE_ACCESS: Word := 0x40000000
  const GENERIC_RIGHT_READ_ACCESS: Word := 0x80000000

  // Standard rights
  const STD_RIGHT_DELETE_ACCESS: Word := 0x00010000
  const STD_RIGHT_READ_CONTROL_ACCESS: Word := 0x00020000
  const STD_RIGHT_WRITE_DAC_ACCESS: Word := 0x00040000
  const STD_RIGHT_WRITE_OWNER_ACCESS: Word := 0x00080000
  const STD_RIGHT_SYNCHRONIZE_ACCESS: Word := 0x00100000
  const STD_RIGHT_ALL_ACCESS: Word := 0x001F0000

  const STANDARD_RIGHTS_ALL_ACCESS: Word := STD_RIGHT_ALL_ACCESS
  const STANDARD_RIGHTS_EXECUTE_ACCESS: Word := STD_RIGHT_READ_CONTROL_ACCESS
  const STANDARD_RIGHTS_READ_ACCESS: Word := STD_RIGHT_READ_CONTROL_ACCESS
  const STANDARD_RIGHTS_WRITE_ACCESS: Word := STD_RIGHT_READ_CONTROL_ACCESS
  const STANDARD_RIGHTS_REQUIRED_ACCESS: Word :=
    STD_RIGHT_DELETE_ACCESS | STD_RIGHT_READ_CONTROL_ACCESS |
    STD_RIGHT_WRITE_DAC_ACCESS | STD_RIGHT_WRITE_OWNER_ACCESS

  // File object rights
  const SA_RIGHT_FILE_READ_DATA: Word := 0x00000001
  const SA_RIGHT_FILE_WRITE_DATA: Word := 0x00000002
  const SA_RIGHT_FILE_APPEND_DATA: Word := 0x00000004
  const SA_RIGHT_FILE_READ_EA: Word := 0x00000008
  const SA_RIGHT_FILE_WRITE_EA: Word := 0x00000010
  const SA_RIGHT_FILE_EXECUTE: Word := 0x00000020
  const SA_RIGHT_FILE_DELETE_CHILD: Word := 0x00000040
  const SA_RIGHT_FILE_READ_ATTRIBUTES: Word := 0x00000080
  const SA_RIGHT_FILE_WRITE_ATTRIBUTES: Word := 0x00000100
  const SA_RIGHT_FILE_ALL_ACCESS: Word := 0x000001FF

  const GENERIC_RIGHTS_FILE_ALL_ACCESS: Word :=
    STANDARD_RIGHTS_REQUIRED_ACCESS | STD_RIGHT_SYNCHRONIZE_ACCESS | SA_RIGHT_FILE_ALL_ACCESS
  const GENERIC_RIGHTS_FILE_READ: Word :=
    STANDARD_RIGHTS_READ_ACCESS | STD_RIGHT_SYNCHRONIZE_ACCESS | SA_RIGHT_FILE_READ_DATA |
    SA_RIGHT_FILE_READ_ATTRIBUTES | SA_RIGHT_FILE_READ_EA
  const GENERIC_RIGHTS_FILE_WRITE: Word :=
    STANDARD_RIGHTS_WRITE_ACCESS | STD_RIGHT_SYNCHRONIZE_ACCESS | SA_RIGHT_FILE_WRITE_DATA |
    SA_RIGHT_FILE_WRITE_ATTRIBUTES | SA_RIGHT_FILE_WRITE_EA | SA_RIGHT_FILE_APPEND_DATA
  const GENERIC_RIGHTS_FILE_EXECUTE: Word :=
    STANDARD_RIGHTS_EXECUTE_ACCESS | SA_RIGHT_FILE_READ_ATTRIBUTES | SA_RIGHT_FILE_EXECUTE

  // SAM server rights
  const SA_RIGHT_SAM_CONNECT_SERVER: Word := 0x00000001
  const SA_RIGHT_SAM_SHUTDOWN_SERVER: Word := 0x00000002
  const SA_RIGHT_SAM_INITIALISE_SERVER: Word := 0x00000004
  const SA_RIGHT_SAM_CREATE_DOMAIN: Word := 0x00000008
  const SA_RIGHT_SAM_ENUM_DOMAINS: Word := 0x00000010
  const SA_RIGHT_SAM_OPEN_DOMAIN: Word := 0x00000020
  const SA_RIGHT_SAM_ALL_ACCESS: Word := 0x0000003F

  const GENERIC_RIGHTS_SAM_ALL_ACCESS: Word := STANDARD_RIGHTS_REQUIRED_ACCESS | SA_RIGHT_SAM_ALL_ACCESS
  const GENERIC_RIGHTS_SAM_READ: Word := STANDARD_RIGHTS_READ_ACCESS | SA_RIGHT_SAM_ENUM_DOMAINS
  const GENERIC_RIGHTS_SAM_WRITE: Word :=
    STANDARD_RIGHTS_WRITE_ACCESS | SA_RIGHT_SAM_CREATE_DOMAIN |
    SA_RIGHT_SAM_INITIALISE_SERVER | SA_RIGHT_SAM_SHUTDOWN_SERVER
  const GENERIC_RIGHTS_SAM_EXECUTE: Word :=
    STANDARD_RIGHTS_EXECUTE_ACCESS | SA_RIGHT_SAM_OPEN_DOMAIN | SA_RIGHT_SAM_CONNECT_SERVER

  // Domain object rights
  const SA_RIGHT_DOMAIN_LOOKUP_INFO_1: Word := 0x00000001
  const SA_RIGHT_DOMAIN_SET_INFO_1: Word := 0x00000002
  const SA_RIGHT_DOMAIN_LOOKUP_INFO_2: Word := 0x00000004
  const SA_RIGHT_DOMAIN_SET_INFO_2: Word := 0x00000008
  const SA_RIGHT_DOMAIN_CREATE_USER: Word := 0x00000010
  const SA_RIGHT_DOMAIN_CREATE_GROUP: Word := 0x00000020
  const SA_RIGHT_DOMAIN_CREATE_ALIAS: Word := 0x00000040
  const SA_RIGHT_DOMAIN_LOOKUP_ALIAS_BY_MEM: Word := 0x00000080
  const SA_RIGHT_DOMAIN_ENUM_ACCOUNTS: Word := 0x00000100
  const SA_RIGHT_DOMAIN_OPEN_ACCOUNT: Word := 0x00000200
  const SA_RIGHT_DOMAIN_SET_INFO_3: Word := 0x00000400
  const SA_RIGHT_DOMAIN_ALL_ACCESS: Word := 0x000007FF

  const GENERIC_RIGHTS_DOMAIN_ALL_ACCESS: Word := STANDARD_RIGHTS_REQUIRED_ACCESS | SA_RIGHT_DOMAIN_ALL_ACCESS
  const GENERIC_RIGHTS_DOMAIN_READ: Word :=
    STANDARD_RIGHTS_READ_ACCESS | SA_RIGHT_DOMAIN_LOOKUP_ALIAS_BY_MEM | SA_RIGHT_DOMAIN_LOOKUP_INFO_2
  const GENERIC_RIGHTS_DOMAIN_WRITE: Word :=
    STANDARD_RIGHTS_WRITE_ACCESS | SA_RIGHT_DOMAIN_SET_INFO_3 | SA_RIGHT_DOMAIN_CREATE_ALIAS |
    SA_RIGHT_DOMAIN_CREATE_GROUP | SA_RIGHT_DOMAIN_CREATE_USER | SA_RIGHT_DOMAIN_SET_INFO_2 |
    SA_RIGHT_DOMAIN_SET_INFO_1
  const GENERIC_RIGHTS_DOMAIN_EXECUTE: Word :=
    STANDARD_RIGHTS_EXECUTE_ACCESS | SA_RIGHT_DOMAIN_OPEN_ACCOUNT | SA_RIGHT_DOMAIN_ENUM_ACCOUNTS |
    SA_RIGHT_DOMAIN_LOOKUP_INFO_1

  // User object rights
  const SA_RIGHT_USER_GET_NAME_ETC: Word := 0x00000001
  const SA_RIGHT_USER_GET_LOCALE: Word := 0x00000002
  const SA_RIGHT_USER_SET_LOC_COM: Word := 0x00000004
  const SA_RIGHT_USER_GET_LOGONINFO: Word := 0x00000008
  const SA_RIGHT_USER_ACCT_FLAGS_EXPIRY: Word := 0x00000010
  const SA_RIGHT_USER_SET_ATTRIBUTES: Word := 0x00000020
  const SA_RIGHT_USER_CHANGE_PASSWORD: Word := 0x00000040
  const SA_RIGHT_USER_SET_PASSWORD: Word := 0x00000080
  const SA_RIGHT_USER_GET_GROUPS: Word := 0x00000100
  const SA_RIGHT_USER_READ_GROUP_MEM: Word := 0x00000200
  const SA_RIGHT_USER_CHANGE_GROUP_MEM: Word := 0x00000400
  const SA_RIGHT_USER_ALL_ACCESS: Word := 0x000007FF

  const GENERIC_RIGHTS_USER_ALL_ACCESS: Word := STANDARD_RIGHTS_REQUIRED_ACCESS | SA_RIGHT_USER_ALL_ACCESS
  const GENERIC_RIGHTS_USER_READ: Word :=
    STANDARD_RIGHTS_READ_ACCESS | SA_RIGHT_USER_READ_GROUP_MEM | SA_RIGHT_USER_GET_GROUPS |
    SA_RIGHT_USER_ACCT_FLAGS_EXPIRY | SA_RIGHT_USER_GET_LOGONINFO | SA_RIGHT_USER_GET_LOCALE
  const GENERIC_RIGHTS_USER_WRITE: Word :=
    STANDARD_RIGHTS_WRITE_ACCESS | SA_RIGHT_USER_CHANGE_PASSWORD | SA_RIGHT_USER_SET_LOC_COM |
    SA_RIGHT_USER_SET_ATTRIBUTES | SA_RIGHT_USER_SET_PASSWORD | SA_RIGHT_USER_CHANGE_GROUP_MEM
  const GENERIC_RIGHTS_USER_EXECUTE: Word :=
    STANDARD_RIGHTS_EXECUTE_ACCESS | SA_RIGHT_USER_CHANGE_PASSWORD | SA_RIGHT_USER_GET_NAME_ETC

  // Group object rights
  const SA_RIGHT_GROUP_LOOKUP_INFO: Word := 0x00000001
  const SA_RIGHT_GROUP_SET_INFO: Word := 0x00000002
  const SA_RIGHT_GROUP_ADD_MEMBER: Word := 0x00000004
  const SA_RIGHT_GROUP_REMOVE_MEMBER: Word := 0x00000008
  const SA_RIGHT_GROUP_GET_MEMBERS: Word := 0x00000010
  const SA_RIGHT_GROUP_ALL_ACCESS: Word := 0x0000001F

  const GENERIC_RIGHTS_GROUP_ALL_ACCESS: Word := STANDARD_RIGHTS_REQUIRED_ACCESS | SA_RIGHT_GROUP_ALL_ACCESS
  const GENERIC_RIGHTS_GROUP_READ: Word := STANDARD_RIGHTS_READ_ACCESS | SA_RIGHT_GROUP_GET_MEMBERS
  const GENERIC_RIGHTS_GROUP_WRITE: Word :=
    STANDARD_RIGHTS_WRITE_ACCESS | SA_RIGHT_GROUP_REMOVE_MEMBER | SA_RIGHT_GROUP_ADD_MEMBER |
    SA_RIGHT_GROUP_SET_INFO
  const GENERIC_RIGHTS_GROUP_EXECUTE: Word := STANDARD_RIGHTS_EXECUTE_ACCESS | SA_RIGHT_GROUP_LOOKUP_INFO

  // Alias object rights
  const SA_RIGHT_ALIAS_ADD_MEMBER: Word := 0x00000001
  const SA_RIGHT_ALIAS_REMOVE_MEMBER: Word := 0x00000002
  const SA_RIGHT_ALIAS_GET_MEMBERS: Word := 0x00000004
  const SA_RIGHT_ALIAS_LOOKUP_INFO: Word := 0x00000008
  const SA_RIGHT_ALIAS_SET_INFO: Word := 0x00000010
  const SA_RIGHT_ALIAS_ALL_ACCESS: Word := 0x0000001F

  const GENERIC_RIGHTS_ALIAS_ALL_ACCESS: Word := STANDARD_RIGHTS_REQUIRED_ACCESS | SA_RIGHT_ALIAS_ALL_ACCESS
  const GENERIC_RIGHTS_ALIAS_READ: Word := STANDARD_RIGHTS_READ_ACCESS | SA_RIGHT_ALIAS_GET_MEMBERS
  const GENERIC_RIGHTS_ALIAS_WRITE: Word :=
    STANDARD_RIGHTS_WRITE_ACCESS | SA_RIGHT_ALIAS_REMOVE_MEMBER | SA_RIGHT_ALIAS_ADD_MEMBER |
    SA_RIGHT_ALIAS_SET_INFO
  const GENERIC_RIGHTS_ALIAS_EXECUTE: Word := STANDARD_RIGHTS_EXECUTE_ACCESS | SA_RIGHT_ALIAS_LOOKUP_INFO

  /** Every generic-mapping combination, in declaration order. */
  const GENERIC_COMBINATIONS: seq<Word> := [
    GENERIC_RIGHTS_FILE_ALL_ACCESS, GENERIC_RIGHTS_FILE_READ, GENERIC_RIGHTS_FILE_WRITE, GENERIC_RIGHTS_FILE_EXECUTE,
    GENERIC_RIGHTS_SAM_ALL_ACCESS, GENERIC_RIGHTS_SAM_READ, GENERIC_RIGHTS_SAM_WRITE, GENERIC_RIGHTS_SAM_EXECUTE,
    GENERIC_RIGHTS_DOMAIN_ALL_ACCESS, GENERIC_RIGHTS_DOMAIN_READ, GENERIC_RIGHTS_DOMAIN_WRITE, GENERIC_RIGHTS_DOMAIN_EXECUTE,
    GENERIC_RIGHTS_USER_ALL_ACCESS, GENERIC_RIGHTS_USER_READ, GENERIC_RIGHTS_USER_WRITE, GENERIC_RIGHTS_USER_EXECUTE,
    GENERIC_RIGHTS_GROUP_ALL_ACCESS, GENERIC_RIGHTS_GROUP_READ, GENERIC_RIGHTS_GROUP_WRITE, GENERIC_RIGHTS_GROUP_EXECUTE,
    GENERIC_RIGHTS_ALIAS_ALL_ACCESS, GENERIC_RIGHTS_ALIAS_READ, GENERIC_RIGHTS_ALIAS_WRITE, GENERIC_RIGHTS_ALIAS_EXECUTE
  ]

  // Well-known SIDs
  const SID_NULL: string := "S-1-0-0"
  const SID_WORLD: string := "S-1-1-0"
  const SID_LOCAL: string := "S-1-2-0"
  const SID_CREATOR_OWNER: string := "S-1-3-0"
  const SID_CREATOR_GROUP: string := "S-1-3-1"
  const SID_CREATOR_OWNER_SERVER: string := "S-1-3-2"
  const SID_CREATOR_GROUP_SERVER: string := "S-1-3-3"
  const SID_NON_UNIQUE: string := "S-1-4"
  const SID_NT: string := "S-1-5"
  const SID_NT_DIALUP: string := "S-1-5-1"
  const SID_NT_NETWORK: string := "S-1-5-2"
  const SID_NT_BATCH: string := "S-1-5-3"
  const SID_NT_INTERACTIVE: string := "S-1-5-4"
  const SID_NT_SERVICE: string := "S-1-5-6"
  const SID_NT_ANONYMOUS_LOGON: string := "S-1-5-7"
  const SID_NT_PROXY: string := "S-1-5-8"
  const SID_NT_ENTERPRISE_CONTROLLERS: string := "S-1-5-9"
  const SID_NT_SERVER_LOGON: string := "S-1-5-9"
  const SID_NT_PRINCIPAL_SELF: string := "S-1-5-10"
  const SID_NT_AUTHENTICATED_USER: string := "S-1-5-11"
  const SID_NT_RESTRICTED_CODE: string := "S-1-5-12"
  const SID_NT_TERMINAL_SERVER: string := "S-1-5-13"
  const SID_NT_LOCAL_SYSTEM: string := "S-1-5-18"
  const SID_NT_NON_UNIQUE: string := "S-1-5-21"
  const SID_NT_BUILTIN_DOMAIN: string := "S-1-5-32"

  /** The SID table in declaration order without SERVER_LOGON, the one alias of ENTERPRISE_CONTROLLERS. */
  const DISTINCT_SIDS: seq<string> := [
    SID_NULL, SID_WORLD, SID_LOCAL, SID_CREATOR_OWNER, SID_CREATOR_GROUP, SID_CREATOR_OWNER_SERVER,
    SID_CREATOR_GROUP_SERVER, SID_NON_UNIQUE, SID_NT, SID_NT_DIALUP, SID_NT_NETWORK, SID_NT_BATCH,
    SID_NT_INTERACTIVE, SID_NT_SERVICE, SID_NT_ANONYMOUS_LOGON, SID_NT_PROXY, SID_NT_ENTERPRISE_CONTROLLERS,
    SID_NT_PRINCIPAL_SELF, SID_NT_AUTHENTICATED_USER, SID_NT_RESTRICTED_CODE, SID_NT_TERMINAL_SERVER,
    SID_NT_LOCAL_SYSTEM, SID_NT_NON_UNIQUE, SID_NT_BUILTIN_DOMAIN
  ]

  /** Bits of `w` all lie inside `mask`. */
  predicate Within(w: Word, mask: Word) { w & !mask == 0 }

  /** The two masks share no bit. */
  predicate Disjoint(a: Word, b: Word) { a & b == 0 }

  lemma StandardCombinationValues()
    ensures STANDARD_RIGHTS_REQUIRED_ACCESS == 0x000f0000
    ensures STANDARD_RIGHTS_ALL_ACCESS == 0x001f0000
    ensures STANDARD_RIGHTS_EXECUTE_ACCESS == 0x00020000
    ensures STANDARD_RIGHTS_READ_ACCESS == 0x00020000
    ensures STANDARD_RIGHTS_WRITE_ACCESS == 0x00020000
    ensures STD_RIGHT_ALL_ACCESS ==
      STD_RIGHT_DELETE_ACCESS | STD_RIGHT_READ_CONTROL_ACCESS | STD_RIGHT_WRITE_DAC_ACCESS |
      STD_RIGHT_WRITE_OWNER_ACCESS | STD_RIGHT_SYNCHRONIZE_ACCESS
  {
  }

  lemma UserMappingValues()
    ensures GENERIC_RIGHTS_USER_ALL_ACCESS == 0x000f07ff
    ensures GENERIC_RIGHTS_USER_READ == 0x0002031a
    ensures GENERIC_RIGHTS_USER_WRITE == 0x000204e4
    ensures GENERIC_RIGHTS_USER_EXECUTE == 0x00020041
  {
  }

  lemma GroupMappingValues()
    ensures GENERIC_RIGHTS_GROUP_ALL_ACCESS == 0x000f001f
    ensures GENERIC_RIGHTS_GROUP_READ == 0x00020010
    ensures GENERIC_RIGHTS_GROUP_WRITE == 0x0002000e
    ensures GENERIC_RIGHTS_GROUP_EXECUTE == 0x00020001
  {
  }

  lemma AliasMappingValues()
    ensures GENERIC_RIGHTS_ALIAS_ALL_ACCESS == 0x000f001f
    ensures GENERIC_RIGHTS_ALIAS_READ == 0x00020004
    ensures GENERIC_RIGHTS_ALIAS_WRITE == 0x00020013
    ensures GENERIC_RIGHTS_ALIAS_EXECUTE == 0x00020008
  {
  }

  lemma MaskRegions()
    ensures Disjoint(SPECIFIC_RIGHTS_MASK, STANDARD_RIGHTS_MASK)
    ensures Disjoint(SPECIFIC_RIGHTS_MASK, GENERIC_RIGHTS_MASK)
    ensures Disjoint(STANDARD_RIGHTS_MASK, GENERIC_RIGHTS_MASK)
    ensures Within(GENERIC_RIGHT_ALL_ACCESS, GENERIC_RIGHTS_MASK)
    ensures Within(GENERIC_RIGHT_EXECUTE_ACCESS, GENERIC_RIGHTS_MASK)
    ensures Within(GENERIC_RIGHT_WRITE_ACCESS, GENERIC_RIGHTS_MASK)
    ensures Within(GENERIC_RIGHT_READ_ACCESS, GENERIC_RIGHTS_MASK)
    ensures Within(STD_RIGHT_DELETE_ACCESS, STANDARD_RIGHTS_MASK)
    ensures Within(STD_RIGHT_READ_CONTROL_ACCESS, STANDARD_RIGHTS_MASK)
    ensures Within(STD_RIGHT_WRITE_DAC_ACCESS, STANDARD_RIGHTS_MASK)
    ensures Within(STD_RIGHT_WRITE_OWNER_ACCESS, STANDARD_RIGHTS_MASK)
    ensures Within(STD_RIGHT_SYNCHRONIZE_ACCESS, STANDARD_RIGHTS_MASK)
    ensures Within(STD_RIGHT_ALL_ACCESS, STANDARD_RIGHTS_MASK)
  {
  }

  /** No generic combination carries a generic, system-security or maximum-allowed bit. */
  lemma CombinationsUseOnlyStandardAndSpecificBits()
    ensures |GENERIC_COMBINATIONS| == 24
    ensures forall i :: 0 <= i < |GENERIC_COMBINATIONS| ==>
      Within(GENERIC_COMBINATIONS[i], STANDARD_RIGHTS_MASK | SPECIFIC_RIGHTS_MASK) &&
      Disjoint(GENERIC_COMBINATIONS[i], GENERIC_RIGHTS_MASK | SEC_RIGHT_SYSTEM_SECURITY | SEC_RIGHT_MAXIMUM_ALLOWED)
  {
  }

  lemma AllSecurityInformationValue()
    ensures ALL_SECURITY_INFORMATION == 0xF000000F
  {
  }

  /** ENTERPRISE_CONTROLLERS and SERVER_LOGON share "S-1-5-9"; all other SIDs differ pairwise. */
  lemma SidTable()
    ensures SID_NT_ENTERPRISE_CONTROLLERS == SID_NT_SERVER_LOGON == "S-1-5-9"
    ensures SID_NT_SERVER_LOGON in DISTINCT_SIDS
    ensures forall i, j :: 0 <= i < j < |DISTINCT_SIDS| ==> DISTINCT_SIDS[i] != DISTINCT_SIDS[j]
  {
  }
}
