/** The `IPv4` record of unveil/ip.py: the address with its country name and
    country code, and a validator with the same pattern as unveil/utils/ip.py. */
module IpClass {
  import IpUtil

  class IPv4 {
    var ip: string
    var country: string
    var cc: string

    /** Stores the three values unchanged. */
    constructor (ip: string, country: string, cc: string)
      ensures this.ip == ip && this.country == country && this.cc == cc
    {
      this.ip := ip;
      this.country := country;
      this.cc := cc;
    }

    /** `_validate_ip`: the same pattern as the module-level validator, applied
        to the argument; it reads no field of the object. */
    function ValidateIp(ip: string): (r: bool)
      ensures r == IpUtil.ValidateIp(ip)
      ensures r == IpUtil.IsDottedQuad(IpUtil.Payload(ip))
    {
      IpUtil.MatchGroupsFields(ip, 4);
      IpUtil.MatchGroups(ip, 4)
    }
  }

  /** The validator's answer does not depend on the object it is asked on. */
  lemma ValidateIpIndependent(a: IPv4, b: IPv4, s: string)
    ensures a.ValidateIp(s) == b.ValidateIp(s)
  {
  }

  /** The boundary addresses are accepted; an octet of 256, a leading zero and
      three or five octets are rejected. */
  lemma ValidateIpExamples(v: IPv4)
    ensures v.ValidateIp("0.0.0.0") && v.ValidateIp("255.255.255.255")
    ensures !v.ValidateIp("256.1.1.1") && !v.ValidateIp("01.2.3.4")
    ensures !v.ValidateIp("1.2.3") && !v.ValidateIp("1.2.3.4.5")
  {
    IpUtil.ValidateIpAcceptsZero();
    IpUtil.ValidateIpAcceptsMax();
    IpUtil.RejectsLargeOctet();
    IpUtil.RejectsLeadingZero();
    IpUtil.RejectsThreeFields();
    IpUtil.RejectsFiveFields();
  }
}
